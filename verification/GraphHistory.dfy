/** Safety of the Graph over whole runs of committed updates. */
module GraphHistory {
  import opened Collections
  import opened TypeTable
  import opened TypeGraph
  import opened GraphCandidate
  import opened DependencyIndex

  /** One committed incremental update: the slots that may be affected were checked,
  the dependency lists of the changed ones edited, and the overlay written. Nothing in
  the code checks that the touched slots lie in the vectors that are written, so a run
  is told only as long as they do. */
  ghost predicate IncrementalStep(s: Store, c: Candidate, s': Store) {
    && s.Valid() && CandidateValid(s, c) && !c.full && Contained(c)
    && (forall h: nat :: InClosure(s, c, h) ==> SlotPasses(s, c, h))
    && OrderMatches(c)
    && PublishedIncrementally(s, c, ForwardAfter(s, c, c.order), ReverseAfter(s, c, c.order), s')
  }

  /** One committed rebuild: every replacement was checked, the table and the slots
  laid out anew, and the dependency lists read off them. */
  ghost predicate RebuildStep(s: Store, c: Candidate, carried: Changes, s': Store) {
    && s.Valid() && CandidateValid(s, c) && c.full
    && EverySlotPasses(s, c)
    && PublishedByRebuild(s, c, carried, s')
    && Built(s'.types, s'.members, s'.table, s'.forward, s'.reverse)
  }

  datatype Commit =
    | Incremental(candidate: Candidate)
    | Rebuild(candidate: Candidate, carried: Changes)

  ghost predicate Step(s: Store, commit: Commit, s': Store) {
    match commit
    case Incremental(c) => IncrementalStep(s, c, s')
    case Rebuild(c, carried) => RebuildStep(s, c, carried, s')
  }

  /** A run from the initialized Graph: `states[i + 1]` follows from `states[i]` by `commits[i]`. */
  ghost predicate Run(states: seq<Store>, commits: seq<Commit>) {
    && |states| == |commits| + 1
    && states[0] == EmptyStore()
    && forall i :: 0 <= i < |commits| ==> Step(states[i], commits[i], states[i + 1])
  }

  lemma IncrementalStepValid(s: Store, c: Candidate, s': Store)
    requires IncrementalStep(s, c, s')
    ensures s'.Valid()
  {
    hide Store.Valid, CandidateValid, InClosure, SlotPasses, EverySlotPasses, PublishedIncrementally, IndexUpdatesExact;
    CommittedTable(s);
    CandidateTable(s, c);
    ClosureCheckIsGlobal(s, c);
    PreparedIndexExact(s, c);
    PublishedIsValid(s, c, ForwardAfter(s, c, c.order), ReverseAfter(s, c, c.order), s');
  }

  /** Resolving members leave nothing for the index builder to refuse. */
  lemma ResolvingIsIndexable(s: Store)
    requires s.InArenas() && WellFormed(s.table) && HandlesBounded(s.table, |s.types|) && s.MembersResolve()
    ensures forall h :: SlotIndexable(s.types, s.members, s.table, h)
  {
    forall h: nat
      ensures SlotIndexable(s.types, s.members, s.table, h)
    {
      OwnIsMembersOf(s, h);
      forall m | m in s.MembersOf(h)
        ensures IsRef(s.table, m.ref) && Base(s.table, m.ref) <= |s.types|
      {
        assert s.Resolves(m.ref);
        BaseBounded(s.table, |s.types|, m.ref);
      }
    }
  }

  lemma RebuildStepValid(s: Store, c: Candidate, carried: Changes, s': Store)
    requires RebuildStep(s, c, carried, s')
    ensures s'.Valid()
  {
    hide CandidateValid, SameChange, ViewAfter, Dependencies, RefsValid, Inverse, SetOf, EverySlotPasses, BuiltBelow, SlotIndexable;
    RebuiltMembersResolve(s, c, carried, s');
    ResolvingIsIndexable(s');
    BuiltIsIndexed(s'.types, s'.members, s'.table, s'.forward, s'.reverse);
    forall h: nat
      ensures RefsValid(s'.table, s'.MembersOf(h))
      ensures SetOf(At(s'.forward, h)) == Dependencies(s'.table, s'.MembersOf(h))
    {
      OwnIsMembersOf(s', h);
      if 1 <= h <= |s'.types| {
      } else {
        NothingDepends(s'.table, s'.MembersOf(h), At(s'.forward, h));
      }
    }
    RebuiltIndexExact(s');
  }

  lemma OwnIsMembersOf(s: Store, h: nat)
    requires s.InArenas()
    ensures OwnMembers(s.types, s.members, h) == s.MembersOf(h)
  {
    assert s.IsLive(h) ==> EntryInArenas(s.types[h - 1].value, s.members, s.values);
  }

  lemma NothingDepends(table: seq<Record>, members: seq<Member>, list: seq<nat>)
    requires WellFormed(table) && members == [] && list == []
    ensures RefsValid(table, members) && SetOf(list) == Dependencies(table, members)
  {
  }

  /** Every state of every run is valid: members resolve, the table is
  hash-consed and the dependency lists are exact. */
  lemma {:induction false} RunsStayValid(states: seq<Store>, commits: seq<Commit>, i: nat)
    requires Run(states, commits) && i < |states|
    ensures states[i].Valid()
  {
    hide IncrementalStep, RebuildStep, Store.Valid;
    if i > 0 {
      RunsStayValid(states, commits, i - 1);
      assert Step(states[i - 1], commits[i - 1], states[i]);
      match commits[i - 1]
      case Incremental(c) => IncrementalStepValid(states[i - 1], c, states[i]);
      case Rebuild(c, carried) => RebuildStepValid(states[i - 1], c, carried, states[i]);
    }
  }

  /** In every state of every run, every member of every live aggregate resolves
  to a builtin or to a live slot, and no live member mentions an empty slot. */
  lemma MembersResolveOverRuns(states: seq<Store>, commits: seq<Commit>, i: nat, handle: nat, m: Member)
    requires Run(states, commits) && i < |states|
    requires states[i].InArenas() && m in states[i].MembersOf(handle)
    ensures WellFormed(states[i].table) && states[i].Resolves(m.ref)
    ensures forall freed: nat :: 0 < freed && !states[i].IsLive(freed) ==> Base(states[i].table, m.ref) != freed
  {
    RunsStayValid(states, commits, i);
    assert states[i].Resolves(m.ref);
  }

  /** In every state of every run two TypeRefs are equal exactly when they mean the same. */
  lemma CanonicalOverRuns(states: seq<Store>, commits: seq<Commit>, i: nat)
    requires Run(states, commits) && i < |states|
    ensures WellFormed(states[i].table) && Canonical(states[i].table)
  {
    RunsStayValid(states, commits, i);
    IndexedIsCanonical(states[i].table, NamedMap(states[i].namedRefs), states[i].derivedIndex);
  }

  /** Within a generation chain TypeRefs are stable: without a rebuild in
  between, an old TypeRef still denotes the same type. */
  lemma {:induction false} RefsStableBetweenRebuilds(states: seq<Store>, commits: seq<Commit>, earlier: nat,
                                                     later: nat, ref: nat)
    requires Run(states, commits) && earlier <= later < |states|
    requires forall k :: earlier <= k < later ==> commits[k].Incremental?
    requires WellFormed(states[earlier].table) && IsRef(states[earlier].table, ref)
    ensures WellFormed(states[later].table) && IsRef(states[later].table, ref)
    ensures Meaning(states[later].table, ref) == Meaning(states[earlier].table, ref)
    decreases later
  {
    hide WellFormed, Meaning, IncrementalStep, RebuildStep;
    if earlier < later {
      RefsStableBetweenRebuilds(states, commits, earlier, later - 1, ref);
      assert Step(states[later - 1], commits[later - 1], states[later]);
      IncrementalTable(states[later - 1], commits[later - 1].candidate, states[later]);
      MeaningStable(states[later - 1].table, states[later].table, ref);
    }
  }

  lemma IncrementalTable(s: Store, c: Candidate, s': Store)
    requires IncrementalStep(s, c, s')
    ensures WellFormed(s.table) && WellFormed(s'.table) && s.table <= s'.table
  {
    hide Store.Valid, CandidateValid, InClosure, SlotPasses, ForwardAfter, ReverseAfter;
    CommittedTable(s);
    CandidateTable(s, c);
  }

  /** In every state of every run the dependency lists, whether edited or rebuilt, are
  as sets the lists that the index builder computes from that state. */
  lemma IncrementalIndexIsRebuiltIndex(states: seq<Store>, commits: seq<Commit>, i: nat, forward: seq<seq<nat>>,
                                       reverse: seq<seq<nat>>, h: nat)
    requires Run(states, commits) && i < |states| && WellFormed(states[i].table)
    requires Built(states[i].types, states[i].members, states[i].table, forward, reverse)
    ensures SetOf(At(states[i].forward, h)) == SetOf(At(forward, h))
    ensures SetOf(At(states[i].reverse, h)) == SetOf(At(reverse, h))
  {
    RunsStayValid(states, commits, i);
    var s := states[i];
    hide Run, BuiltBelow, SlotIndexable;
    ResolvingIsIndexable(s);
    BuiltIsIndexed(s.types, s.members, s.table, forward, reverse);
    forall k: nat
      ensures SetOf(At(s.forward, k)) == SetOf(At(forward, k))
    {
      OwnIsMembersOf(s, k);
      if k == 0 || k > |s.types| {
        NothingDepends(s.table, s.MembersOf(k), At(forward, k));
      }
    }
    forall d: nat
      ensures d in At(s.reverse, h) <==> d in At(reverse, h)
    {
      assert h in At(s.forward, d) <==> h in SetOf(At(s.forward, d));
      assert h in At(forward, d) <==> h in SetOf(At(forward, d));
    }
  }
}
