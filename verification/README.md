# Verified model of the project server's build core

This project models the part of the server that turns a set of Sources into a
canonical type graph and keeps it up to date, and proves what the rest of the
server relies on. Everything is written for Dafny 4.11; `dafny verify
dfyconfig.toml` checks the whole project.

The code under study is stateful: methods edit vectors, counters and candidate
slots in place, and an update is published in two phases. The model has the same
form. Classes carry the fields the source updates (`GraphUpdate`,
`ContributionUpdate`, `SlotUpdate`, `IdentityUpdate`, `LayerUpdate`,
`Transaction`, `Scheduler`, `GraphOwner`, `Writer`, `Parser`), loops that fill
vectors are loops, and each such method is tied to a value-level specification
about which the lemmas speak. The protocols with several worker threads are
state machines over their critical sections, with theorems about every run and
every interleaving.

## The parts

**Type graph** (`TypeTable`, `TypeGraph`, `DependencyIndex`, `GraphCandidate`,
`GraphUpdates`, `GraphHistory`). A TypeRef means a tree; hash-consing is correct
when equal TypeRefs are exactly those with equal trees. An incremental update
checks only the reverse closure of the changed slots, edits the dependency lists
in place and appends to the table; a rebuild computes everything anew into a
compact table. Both are proved to lead from a valid graph to a valid one, hence
over every run: members resolve, freed slots are mentioned by nobody, TypeRefs are
canonical, and the edited lists are those a rebuild of the index would compute.
A step of a run assumes what the code checks, the closure for an increment, and one
thing that nobody checks: the slots an increment touches lie inside its table.

**Contributions** (`Contributions`, `ContributionRecount`,
`ContributionUpdates`). Per-entity counters against a recount over all Sources.

**Type slots** (`TypeSlots`, `SlotUpdates`, `SlotRuns`) and **stable identities**
(`StableIds`). Exclusive ownership and the free list, from whatever slots an earlier
rebuild left; identities in byte order of the names, for ever.

**Two-phase publication** (`Overlay`, `BuildTransaction`). Generation-tagged
slots against map override. A transaction drives the real updates of the Graph and
of the contributions; all four layers are published or none.

**Compiled artifact** (`CompiledState`, `LittleEndian`, `ArtifactLayout`,
`ArtifactRecords`, `Artifact`) and **graph import and export** (`CompiledGraph`,
`Checkpoint`). `IsArtifact` relates a file to the state it carries. The decoder
decides the relation; the encoder establishes it exactly for persistable states.
Import is proved to check enough for everything that follows it.

**Commits and checkpoints** (`GraphCommits`, `EntityHousing`, `Allocation`,
`SlotHistory`). Types, names and entities of one update together. Every history of
commits and reloads leaves a Graph whose export is accepted exactly when every live
entity finds a type of its kind, and the operations that take this away are told
apart. The last two modules let the slots of such a history come from the allocator:
what is asked there of every draft follows from what a rebuild drew.

**Frontend** (`SourceDiscovery`, `SemanticSchedule`, `InterfaceTrees`,
`IncrementalFrontend`). Discovery in waves, parsing in dependency order by
concurrent workers, publication in Source order, and an incremental build whose
cache equals that of a full rebuild.

**Project composition** (`CompositionWorkers`, `CompositionTraversal`). The
worker pool with its `outstanding` counter, and the iterative three-colour
traversal against the recursive first-visit expansion.

**JSON** (`Utf8`, `JsonText`, `JsonDocument`, `JsonWriter`, `JsonParser`) and
**enumerator constants** (`BuiltinTypes`, `Enumerators`).

`Collections` holds small sequence facts that the others share.

## What the proofs found

The code is modelled as it is. Where a promise does not hold for all inputs, an
input is exhibited and another member says exactly when it holds.

- A rebuild lets anonymous enums draw from the free list of the old generation
  while named entities are numbered from one, so two owners can end up in one
  slot (`TypeSlots.RebuildSharesSlot`). Slots are exclusive after a rebuild if and
  only if nothing was taken from that list (`TypeSlots.RebuiltValidIff`). The references
  between types in the rebuilt Graph are sound even then (`GraphHistory.RunsStayValid`).
- A slot that such a rebuild draws at or above its final counter is laid out nowhere,
  but its Source keeps the number. The increment that replaces the Source touches it,
  no check refuses the update (`GraphUpdates.LostSlotPrepared`, `SlotRuns.LostSlot`),
  and publication would write outside the table. An increment stays inside its table if
  and only if every anonymous slot recorded for a Source it replaces is below its final
  counter (`TypeSlots.InsideIff`, `Allocation.IncrementContained`), and every later
  increment does if and only if the rebuild claimed no slot at or above its own final
  counter (`SlotRuns.SafeIff`). What is proved of increments is proved of those that stay
  inside their tables; `GraphCandidate.Contained` is the name of this hypothesis.
- When an enum draws the slot of an aggregate entity in this way, no check refuses
  the rebuild, it is committed, and the checkpoint written from it is refused as
  corrupt when it is loaded (`EntityHousing.SharedSlotCommitted`). A commit can be
  loaded again if and only if every entity finds a type of its kind
  (`GraphCommits.ExportOverHistory`, `EntityHousing.HousedIff`), and an operation
  breaks this exactly when it takes or frees a slot in which an entity of another
  kind lives (`EntityHousing.HousedUnlessEvicted`). With slots from the allocator only a
  rebuild that draws from the old free list can come to this: it houses every entity
  if and only if no aggregate is left in a slot that an enum drew after the last
  declaration in it (`SlotHistory.RebuildHousedIff`), and without such rebuilds every
  state can be loaded again (`SlotHistory.EverythingLoads`).
- `resolve_pending_members` returns early on an empty list and leaves the pending
  modifiers behind (server_entry/project/graph/graph.cpp:2163-2165), so an aggregate
  defined without members but with modifiers is taken and refused later
  (`GraphUpdates.LeftoverModifiersRefused`). With room in the table, the check
  succeeds if and only if every pending member can be resolved, nothing dangles and
  no aggregate was left so (`GraphUpdates.GraphUpdate.CheckCandidate`,
  `GraphCandidate.CheckDecided`).
- An aggregate that is touched by an update, and perhaps materialized away in
  between, keeps its members if and only if its defining Source is replaced in the
  same update or it had none (`ContributionUpdates.MembersSurviveIff`,
  `ContributionUpdates.MembersLost`).
- A worker of the composition pool that breaks down raises the failure flag and sends
  its notification without holding the mutex, so `join` can hang
  (`CompositionWorkers.LostWakeup`). It can if and only if, when the flag is first
  raised, some worker has found nothing to do and is not asleep yet
  (`CompositionWorkers.HangIff`); in every other run all workers leave
  (`CompositionWorkers.EveryoneLeaves`).
- An incremental update can be refused half way although the final contributions
  are consistent (`ContributionRecount.RefusedHalfWay`), so it refines a rebuild in
  one direction only.
- A live empty string whose offset would be 2^32-1 is written like a free slot
  (`Artifact.EmptyStringLost`); the condition is exact (`Artifact.WrittenIsArtifact`).
- Import accepts two entities over one type slot and live entities without an
  identity (`CompiledGraph.OwnershipUnchecked`); an export without entity table is
  refused on import (`CompiledGraph.ExportAcceptable`), and the identity counter
  comes back as the size of the entity table (`CompiledGraph.ExportThenImport`).
- The sum of an unsigned and a negative enumerator constant is always refused
  (`Enumerators.MixedSumRefused`), and so is a list in which the largest value
  stands before another enumerator, even one with its own initializer
  (`Enumerators.SuccessorNeeded`).
- In `rebuild_canonical_type_table` the liveness test also accepts a committed
  slot that the rebuild left untouched, unlike the validation before it; after a
  successful validation no member refers to one (`GraphCandidate.CheckedMemberRemaps`).

## Model

| member | source | states |
|---|---|---|
| `TypeTable.IndexedIsCanonical` | `server_entry/project/graph/graph.cpp:1326-1426` | when the two lookup indexes hold exactly the named and derived records, two valid TypeRefs are equal if and only if they denote the same structural type |
| `TypeTable.SameMeaningSameRef` | `server_entry/project/graph/graph.cpp:1375-1426` | hash-consing is injective: equal trees have one index |
| `TypeTable.MeaningStable` | `server_entry/project/graph/graph.cpp:4187-4196` | appending records changes neither the meaning nor the named base of an existing TypeRef |
| `TypeTable.BaseOfMeaning` | `server_entry/project/graph/graph.cpp:440-476` | walking the derived chain of a TypeRef finds the base of the type it denotes |
| `TypeGraph.FreedSlotUnreferenced` | `server_entry/project/graph/graph.cpp:1632-1662` | in a valid Graph no live member mentions an empty slot and nothing is recorded as depending on it, so reusing the slot redirects nothing |
| `TypeGraph.ViewStable` | `server_entry/project/graph/graph.cpp:4140-4175` | append-only arenas: a slot keeps its members and values when the arenas grow |
| `DependencyIndex.WalkToBase` | `server_entry/project/graph/graph.cpp:440-476` | the bounded walk answers exactly for valid TypeRefs, with the named base of the chain |
| `DependencyIndex.CollectDependencies` | `server_entry/project/graph/graph.cpp:495-528` | succeeds iff every member TypeRef is valid; the list is duplicate-free and is the set of named bases |
| `DependencyIndex.AddSlot` | `server_entry/project/graph/graph.cpp:528-537` | records one slot in both directions and keeps what is built so far the lists of the slots done; refuses iff a member does not resolve or a dependency is out of range |
| `DependencyIndex.BuildDependencyIndex` | `server_entry/project/graph/graph.cpp:432-544` | succeeds iff every slot is indexable; then the lists are the dependencies of every slot and their inverse |
| `GraphCandidate.NamedFound` | `server_entry/project/graph/graph.cpp:1326-1373` | whichever of the two lookups answers, the TypeRef denotes exactly the asked named type |
| `GraphCandidate.DerivedFound` | `server_entry/project/graph/graph.cpp:1375-1426` | whichever of the two lookups answers, the TypeRef denotes the asked modifier around what the child denotes |
| `GraphUpdates.GraphUpdate.GetOrCreateNamed` | `server_entry/project/graph/graph.cpp:1326-1373` | success means the named type itself; refused iff the handle is zero; an overflow only past the 32-bit limit; the table only grows |
| `GraphUpdates.GraphUpdate.GetOrCreateDerived` | `server_entry/project/graph/graph.cpp:1375-1426` | whatever child it is given: success means the modifier around the meaning of a valid child; refused iff the child is zero or the payload does not fit the kind |
| `GraphUpdates.GraphUpdate.AssignType` | `server_entry/project/graph/graph.cpp:1632-1677` | the slot is replaced, counted when it is the next one, and its named TypeRef is in the table; every other slot stays |
| `GraphUpdates.GraphUpdate.MaterializeAggregate` | `server_entry/project/graph/graph.cpp:1704-1766` | the slot becomes an aggregate candidate; members collected earlier in the same update are carried over, those of the committed generation are not |
| `GraphUpdates.GraphUpdate.MaterializeEnum` | `server_entry/project/graph/graph.cpp:1725-1766` | the slot becomes an enum candidate with exactly the given values |
| `GraphUpdates.GraphUpdate.Tombstone` | `server_entry/project/graph/graph.cpp:1679-1702` | a slot without declarations becomes a removal, its entity leaves the names, and every other slot stays |
| `GraphUpdates.GraphUpdate.ReleaseAnonymous` | `server_entry/project/graph/graph.cpp:1768-1816` | whatever slot the Source had recorded for an anonymous enum becomes a removal, and every other slot stays |
| `GraphUpdates.GraphUpdate.AddAnonymousEnum` | `server_entry/project/graph/graph.cpp:1964-2036` | the slot is an enum candidate; a slot drawn from the free list of a rebuild may lie at or above the counter, which then stays |
| `GraphUpdates.GraphUpdate.DefineMembers` | `server_entry/project/graph/graph.cpp:1219-1272` | accepted iff the slot is a defined aggregate candidate of this update and the list is well formed, which includes modifiers without members; then the list is pending in full |
| `GraphUpdates.GraphUpdate.ApplyModifiers` | `server_entry/project/graph/graph.cpp:2203-2236` | the result denotes the base wrapped in the modifier slice, innermost first; fails only for a payload that does not fit or a full table |
| `GraphUpdates.GraphUpdate.ResolveMember` | `server_entry/project/graph/graph.cpp:2171-2241` | success means the declared type; a configuration failure means that the member cannot be resolved |
| `GraphUpdates.GraphUpdate.ResolvePendingMembers` | `server_entry/project/graph/graph.cpp:2160-2258` | resolved members carry the declared names and denote the declared types, in order |
| `GraphUpdates.GraphUpdate.ResolveAllPending` | `server_entry/project/graph/graph.cpp:3720-3748` | all replaced aggregates are resolved, or one of their members cannot be |
| `GraphCandidate.ClosureIsLeast` | `server_entry/project/graph/graph.cpp:2495-2542` | every set that holds the changed slots and is closed under reverse dependencies holds the reverse closure |
| `GraphCandidate.UntouchedSlotPasses` | `server_entry/project/graph/graph.cpp:2495-2542` | a slot outside the closure of the changed slots passes without being looked at |
| `GraphCandidate.ClosureCheckIsGlobal` | `server_entry/project/graph/graph.cpp:2495-2542` | checking the reverse closure of the changed slots is as strong as checking every slot |
| `GraphUpdates.GraphUpdate.ValidateClosure` | `server_entry/project/graph/graph.cpp:2495-2542` | the worklist accepts iff every slot passes; it visits each slot once, and on acceptance exactly the reverse closure |
| `GraphUpdates.GraphUpdate.ValidateLiveMemberTypeRefs` | `server_entry/project/graph/graph.cpp:2260-2561` | succeeds iff every slot passes in either mode: no reference dangles and no build is left unfinished; an increment visits exactly the reverse closure |
| `GraphCandidate.IndexComplete` | `server_entry/project/graph/graph.cpp:2563-2778` | the edited lists of all changed slots together are exact for the candidate |
| `GraphUpdates.GraphUpdate.PrepareDependencyIndexUpdates` | `server_entry/project/graph/graph.cpp:2563-2778` | the loops compute the new forward lists and the edited reverse lists of the changed slots, in their order |
| `GraphCandidate.EditedIsInverse` | `server_entry/project/graph/graph.cpp:2563-2660` | editing only the lists of old and new dependencies keeps both directions inverse |
| `GraphCandidate.PreparedIndexExact` | `server_entry/project/graph/graph.cpp:2563-2778` | the lists so computed, put over the committed ones, are exact inverses and the dependency sets of the candidate |
| `GraphCandidate.PublishedMembersResolve` | `server_entry/project/graph/graph.cpp:4131-4196` | after an incremental publication every live member resolves |
| `GraphCandidate.PublishedIndexExact` | `server_entry/project/graph/graph.cpp:4198-4206` | after an incremental publication the dependency lists are exact |
| `GraphCandidate.PublishedIsValid` | `server_entry/project/graph/graph.cpp:4100-4211` | a checked and indexed incremental publication leads from a valid Graph to a valid Graph |
| `GraphUpdates.GraphUpdate.RemapType` | `server_entry/project/graph/graph.cpp:3130-3246` | the remapped TypeRef denotes in the new table what the old one denoted in committed plus added; recursion ends because children precede parents |
| `GraphUpdates.GraphUpdate.RebuildDerived` | `server_entry/project/graph/graph.cpp:3186-3240` | finds or appends one derived record of the new table with the wanted meaning |
| `GraphUpdates.GraphUpdate.RemapMembers` | `server_entry/project/graph/graph.cpp:3248-3283` | names stay, meanings stay; only the 32-bit limit can stop it |
| `GraphUpdates.GraphUpdate.RebuildCanonicalTypeTable` | `server_entry/project/graph/graph.cpp:3018-3286` | after a successful validation the table is rebuilt with the meaning of every live member kept and both indexes exact, unless it outgrows 32 bits |
| `GraphCandidate.CheckedMemberRemaps` | `server_entry/project/graph/graph.cpp:3075-3128` | the base of every checked member has a named entry in the new table |
| `GraphUpdates.GraphUpdate.BuildRebuildStorage` | `server_entry/project/graph/graph.cpp:2927-3016` | the detached arenas hold the view of every replaced slot and nothing else |
| `GraphCandidate.RebuiltMembersResolve` | `server_entry/project/graph/graph.cpp:2260-2561` | after a rebuild every live member resolves |
| `GraphUpdates.GraphUpdate.GrowOwner` | `server_entry/project/graph/graph.cpp:3953-4074` | a failed growth can be rolled back to the committed state |
| `GraphUpdates.GraphUpdate.CheckCandidate` | `server_entry/project/graph/graph.cpp:3720-3760` | with room in the table it succeeds iff every pending member can be resolved, no live slot mentions one that will not be live, and no aggregate was given modifiers without members; then the candidate is the resolved one and every slot passes |
| `GraphCandidate.CheckDecided` | `server_entry/project/graph/graph.cpp:2260-2561` | the check after resolution passes iff, before it, nothing dangles and no aggregate has modifiers but no member to put them on |
| `GraphUpdates.LeftoverModifiersRefused` | `server_entry/project/graph/graph.cpp:2160-2165` | the concrete case: define_members takes an aggregate without members but with a modifier, and the check refuses the update |
| `GraphUpdates.GraphUpdate.PreparePublish` | `server_entry/project/graph/graph.cpp:3680-4074` | the type stages: success leaves a publishable update, resolved from the drafted one; a configuration failure means one of the three refusals of CheckCandidate; in any case the committed Graph can be restored |
| `GraphUpdates.GraphUpdate.PublishTypes` | `server_entry/project/graph/graph.cpp:4131-4185` | writing the touched slots in place gives the old map of views overridden by the changes |
| `GraphUpdates.GraphUpdate.PublishIncrement` | `server_entry/project/graph/graph.cpp:4102-4211` | an increment inside its table publishes exactly what was prepared and leaves a valid Graph |
| `GraphUpdates.GraphUpdate.PublishPrepared` | `server_entry/project/graph/graph.cpp:4076-4212` | an increment inside its table, and every rebuild, takes one step of a run: from the committed Graph to one that shows the candidate, except slots that a rebuild drew at or above its counter, which it lays out nowhere; the Graph is valid |
| `GraphUpdates.LostSlotPrepared` | `server_entry/project/graph/graph.cpp:3680-4074` | a concrete case in which an increment leaves its table: a rebuild draws slot 1 for one anonymous enum and lays out no slot; the increment that drops the enum passes every check of prepare_publish although slot 1 is not there |
| `GraphUpdates.GraphUpdate.Cancel` | `server_entry/project/graph/graph.cpp:4214-4262` | an uncommitted update leaves the committed vectors exactly as they were |
| `GraphHistory.RunsStayValid` | `server_entry/project/graph/graph.cpp:3680-4212` | every state of every run of rebuilds and increments is valid, also of rebuilds that draw slots from the old free list, as long as no increment touches a slot outside its table (SlotRuns.SafeIff says when) |
| `GraphHistory.MembersResolveOverRuns` | `server_entry/project/graph/graph.cpp:2260-2561` | over every such run each member of each live aggregate ends in a builtin or a live slot, although an increment checks the reverse closure of its changes only; no live member mentions a freed slot |
| `GraphHistory.CanonicalOverRuns` | `server_entry/project/graph/graph.cpp:1326-1426` | after every commit TypeRefs are canonical |
| `GraphHistory.RefsStableBetweenRebuilds` | `server_entry/project/graph/graph.cpp:4187-4196` | between rebuilds a TypeRef keeps denoting the same type |
| `GraphHistory.IncrementalIndexIsRebuiltIndex` | `server_entry/project/graph/graph.cpp:2563-2778` | in every state of every run the edited lists are, as sets, those the index builder computes from that state |
| `Contributions.AcceptedIffCompatible` | `server_entry/project/graph/graph.cpp:1511-1580` | add_delta accepts a contribution iff it is compatible with every contribution in force |
| `Contributions.AddedExact` | `server_entry/project/graph/graph.cpp:1511-1580` | adding keeps every counter equal to its recount |
| `Contributions.SubtractionSafe` | `server_entry/project/graph/graph.cpp:1582-1630` | no counter underflows when a contribution in force is taken back |
| `Contributions.SubtractedExact` | `server_entry/project/graph/graph.cpp:1582-1630` | subtracting keeps counters, definition source and active underlying type equal to the recount |
| `ContributionRecount.MaterializedIsDeclared` | `server_entry/project/graph/graph.cpp:1679-1766` | what materialize reads off the counters is the entity that the contributions declare |
| `ContributionRecount.CoexistIffPairwise` | `server_entry/project/graph/graph.cpp:1511-1580` | compatibility of a collection does not depend on its order |
| `ContributionRecount.BatchAcceptedIffCompatible` | `server_entry/project/graph/graph.cpp:1511-1580` | a batch is accepted iff it is pairwise compatible with itself and with what is in force, and then all counters are exact |
| `ContributionRecount.RebuildAgrees` | `server_entry/project/graph/graph.cpp:1511-1630` | whatever was accepted incrementally a rebuild accepts in any order, with the same entity and the same definition sources |
| `ContributionRecount.RefusedHalfWay` | `server_entry/project/graph/graph.cpp:1511-1580` | the converse is false: two Sources that both change an underlying type are refused half way although the final state is consistent |
| `ContributionUpdates.SubtractAll` | `server_entry/project/graph/graph.cpp:1768-1816` | taking back all records of a Source leaves the recount over the others |
| `ContributionUpdates.OneMore` | `server_entry/project/graph/graph.cpp:1818-1962` | one declaration is accepted iff compatible with all Sources, and then counters and entities agree with the longer records |
| `ContributionUpdates.ContributionUpdate.BeginSourceReplacement` | `server_entry/project/graph/graph.cpp:1768-1816` | idempotent; the old contributions of the Source no longer count; fails only for Source zero or a failed update |
| `ContributionUpdates.ContributionUpdate.Declare` | `server_entry/project/graph/graph.cpp:1818-1962` | accepted iff compatible with everything in force after the replacement began; the record is added to its Source |
| `ContributionUpdates.ContributionUpdate.PublishAggregate` | `server_entry/project/graph/graph.cpp:1818-1890` | accepted iff compatible with everything in force; a definition gives the aggregate its members |
| `ContributionUpdates.ContributionUpdate.Publish` | `server_entry/project/builder/source_contribution_cache.cpp:355-385` | the cache holds what the update saw and stays exact; the members of every defined aggregate survive under the exact condition |
| `ContributionUpdates.CacheAgreesWithRebuild` | `server_entry/project/builder/source_contribution_cache.cpp:204-226` | after any sequence of replacements, counters and entities agree with a rebuild over the same contributions in any order |
| `ContributionUpdates.MembersSurviveIff` | `server_entry/project/graph/graph.cpp:1705-1724` | in whatever order an update took back and added contributions: a defined aggregate ends with the members it is due iff the update did not touch it, its defining Source is replaced, or it had none; else it ends empty |
| `ContributionUpdates.MembersLost` | `server_entry/project/graph/graph.cpp:1713-1724` | a concrete loss, as a sequence of calls: another Source declares an aggregate whose defining Source is not replaced |
| `Overlay.LayerUpdate.constructor` | `server_entry/project/builder/source_contribution_cache.cpp:67-76` | whatever stale slots earlier updates left, a new update sees the committed contents |
| `Overlay.LayerUpdate.Touch` | `server_entry/project/builder/source_contribution_cache.cpp:204-226` | the first touch copies the committed value, later ones keep the candidate |
| `Overlay.LayerUpdate.Write` | `server_entry/project/builder/source_contribution_cache.cpp:151-180` | the update sees the written value and otherwise what it saw |
| `Overlay.LayerUpdate.Get` | `server_entry/project/builder/source_contribution_cache.cpp:193-237` | reads the override, else the committed value, never a slot of an older generation |
| `Overlay.LayerUpdate.Prepare` | `server_entry/project/builder/source_contribution_cache.cpp:311-353` | a failing prepare has at most lengthened the committed vector |
| `Overlay.LayerUpdate.Publish` | `server_entry/project/builder/source_contribution_cache.cpp:355-385` | the committed vector becomes the committed map overridden by the touched entries |
| `Overlay.LayerUpdate.Cancel` | `server_entry/project/builder/source_contribution_cache.cpp:387-410` | contents and logical size are those before the update |
| `BuildTransaction.Manager.Begin` | `server_entry/project/graph/graph_manager.cpp:47-61` | an incremental build falls back to a rebuild without a complete contribution cache; beginning changes no committed contents |
| `BuildTransaction.Manager.LoadCompiled` | `server_entry/project/graph/graph_manager.cpp:103-180` | loads iff the file carries a state with distinct strings and an acceptable Graph; then strings and Graph are those and the contribution cache is invalidated; otherwise no layer changes |
| `BuildTransaction.Transaction.Prepare` | `server_entry/project/graph/graph_build_transaction.cpp:84-252` | with memory to spare it succeeds iff the Graph refuses nothing and the contributions did not fail; a failure at any stage leaves every layer as it was |
| `BuildTransaction.Transaction.PublishPrepared` | `server_entry/project/graph/graph_build_transaction.cpp:254-297` | Sources and strings show what their updates saw, the contribution cache is the recount the update saw, and the Graph takes one step of a run; an increment must be inside its table |
| `BuildTransaction.Transaction.Commit` | `server_entry/project/graph/graph_build_transaction.cpp:299-308` | all four layers show the build, the Graph by one step from the drafted candidate, or none has changed and the manager is broken; an increment must be inside its table |
| `BuildTransaction.Transaction.Fail` | `server_entry/project/graph/graph_build_transaction.cpp:65-82` | every layer is cancelled: Sources, strings and Graph are as they were when the build began |
| `BuildTransaction.Transaction.Close` | `server_entry/project/graph/graph_build_transaction.cpp:36-42` | an unfinished transaction fails, a finished one is left alone |
| `TypeSlots.NextFreeUnused` | `server_entry/project/graph/graph.cpp:1647-1662` | the slot about to be claimed belongs to nobody and was touched by nobody |
| `TypeSlots.AssignedSound` | `server_entry/project/graph/graph.cpp:1632-1677` | assign_type gives the entity a slot nobody else holds and keeps the slot books |
| `TypeSlots.TombstonedSound` | `server_entry/project/graph/graph.cpp:1679-1702` | a tombstoned entity holds nothing, others keep their slots |
| `TypeSlots.ClearedSound` | `server_entry/project/graph/graph.cpp:1768-1816` | giving up the anonymous enums of a Source keeps the slot books |
| `TypeSlots.AnonymousAddedSound` | `server_entry/project/graph/graph.cpp:1964-2036` | adding an anonymous enum keeps the slot books of an incremental update: its slot is held by nobody else |
| `TypeSlots.PublishedValid` | `server_entry/project/graph/graph.cpp:4102-4185` | after an incremental commit the free list is duplicate-free and exactly the empty slots, and every live slot has one owner |
| `TypeSlots.RebuiltValidIff` | `server_entry/project/graph/graph.cpp:2010-2027` | a rebuild leaves valid slots iff it took nothing from the old free list |
| `TypeSlots.RebuildSharesSlot` | `server_entry/project/graph/graph.cpp:2010-2027` | the concrete failure: an entity and an anonymous enum end up in one slot |
| `TypeSlots.InsideIff` | `server_entry/project/graph/graph.cpp:1799-1803` | every slot an increment touches lies inside its final table iff every anonymous slot recorded for a replaced Source is below the final counter |
| `SlotUpdates.SlotUpdate.AssignType` | `server_entry/project/graph/graph.cpp:1632-1677` | the update does exactly assign_type and answers the slot that the entity now holds |
| `SlotUpdates.SlotUpdate.Tombstone` | `server_entry/project/graph/graph.cpp:1679-1702` | the update does exactly the removal |
| `SlotUpdates.SlotUpdate.ClearSource` | `server_entry/project/graph/graph.cpp:1768-1816` | the update gives up exactly the anonymous enums of the Source |
| `SlotUpdates.SlotUpdate.AddAnonymousEnum` | `server_entry/project/graph/graph.cpp:1964-2036` | the update pushes exactly the next free slot |
| `SlotUpdates.SlotUpdate.Publish` | `server_entry/project/graph/graph.cpp:4102-4185` | an increment inside its table keeps valid slots valid and every holder its slot, and enums inside the table inside it; a rebuild leaves valid slots iff the old free list was empty or no anonymous enum was added, and all its enums inside its table iff no claimed slot lies at or above the final counter |
| `SlotRuns.AfterBooks` | `server_entry/project/graph/graph.cpp:1632-2036` | an update keeps its slot books over every sequence of operations, whatever slots it started from |
| `SlotRuns.IncrementsInside` | `server_entry/project/graph/graph.cpp:4102-4185` | once all recorded enums lie inside the table, no later increment ever leaves its table |
| `SlotRuns.SafeIff` | `server_entry/project/graph/graph.cpp:2010-2027` | no increment after a rebuild, directly or after others, leaves its table iff the rebuild claimed no slot at or above its own final counter |
| `SlotRuns.LostSlot` | `server_entry/project/graph/graph.cpp:2010-2027` | the concrete failure: after a slot was freed, a rebuild that holds one anonymous enum and nothing else draws it and lays out no slot; the increment that drops the enum leaves its table |
| `StableIds.SortNames` | `server_entry/project/graph/graph.cpp:3435-3472` | the new names in strict byte order, each once |
| `StableIds.RankIsPosition` | `server_entry/project/graph/graph.cpp:3464-3472` | in the sorted list the rank of a name is its position |
| `StableIds.BuildRemap` | `server_entry/project/graph/graph.cpp:3478-3492` | the remap is a bijection from provisional to consecutive final identities |
| `StableIds.AllCollected` | `server_entry/project/graph/graph.cpp:3384-3436` | every provisional identity has a declaration that names it |
| `StableIds.ReassignmentKeepsValid` | `server_entry/project/graph/graph.cpp:3369-3676` | identity table, entities, records and counters are permuted consistently, and the final identity of a new name is its byte-order rank, whatever the publication order |
| `StableIds.IdentityUpdate.Declare` | `server_entry/project/graph/graph.cpp:1818-1890` | a known name keeps its identity, whether its entity is live or dead; an unknown one gets the next |
| `StableIds.IdentityUpdate.Tombstone` | `server_entry/project/graph/graph.cpp:1679-1702` | the entity dies under its identity, and the name keeps the identity |
| `StableIds.IdentityUpdate.Canonicalize` | `server_entry/project/graph/graph.cpp:3369-3676` | the final identity depends on the set of new names alone; entities and counters move by one and the same bijection |
| `StableIds.Permute` | `server_entry/project/builder/source_contribution_cache.cpp:239-309` | the slots at provisional identities move to the final ones, all others stay |
| `StableIds.IdentitiesForEver` | `server_entry/project/graph/graph.cpp:1691-1702` | over every run a committed name never changes its identity and no two names share one, although entities die, are dropped by a rebuild and come back; a live entity is always under the first identity of its name |
| `LittleEndian.LeRoundTrip` | `server_entry/project/graph/compiled_persistence.cpp:79-133` | reading a written integer gives it back |
| `LittleEndian.ValueRoundTrip` | `server_entry/project/graph/compiled_persistence.cpp:79-133` | writing what was read gives the bytes back |
| `LittleEndian.Write` | `server_entry/project/graph/compiled_persistence.cpp:79-96` | writes the little-endian bytes at the offset and nothing else |
| `LittleEndian.Read` | `server_entry/project/graph/compiled_persistence.cpp:98-133` | reads the little-endian integer at the offset |
| `ArtifactLayout.CheckedAdd` | `server_entry/project/graph/compiled_persistence.cpp:151-163` | succeeds iff the sum fits 64 bits, and then is it |
| `ArtifactLayout.CheckedMultiply` | `server_entry/project/graph/compiled_persistence.cpp:165-178` | succeeds iff the product fits 64 bits, and then is it |
| `ArtifactLayout.BuildSections` | `server_entry/project/graph/compiled_persistence.cpp:209-280` | succeeds iff every record count fits 32 bits; no other overflow can occur |
| `ArtifactLayout.ValidateDirectory` | `server_entry/project/graph/compiled_persistence.cpp:282-339` | accepts iff every entry has its kind and record size, exact byte count, aligned offset in order inside the file, zero gaps, and the last section ends the file |
| `ArtifactLayout.SectionsInOrder` | `server_entry/project/graph/compiled_persistence.cpp:282-339` | accepted sections follow one another without overlap |
| `ArtifactLayout.EveryByteAccounted` | `server_entry/project/graph/compiled_persistence.cpp:282-339` | every byte behind the directory is in a section or zero |
| `ArtifactLayout.EntryRead` | `server_entry/project/graph/compiled_persistence.cpp:1045-1061` | a written directory entry is read back |
| `ArtifactLayout.PlanValid` | `server_entry/project/graph/compiled_persistence.cpp:209-280` | the layout of the writer passes the validation of the reader |
| `ArtifactRecords.EntityRoundTrip` | `server_entry/project/graph/compiled_persistence.cpp:447-471` | a written entity record is read back iff a free slot has no type, else refused |
| `ArtifactRecords.EnumValueRoundTrip` | `server_entry/project/graph/compiled_persistence.cpp:477-493` | a written enum value is read back iff it is named, else refused |
| `ArtifactRecords.MemberRoundTrip` | `server_entry/project/graph/compiled_persistence.cpp:495-507` | a written member is read back iff it has a name and a TypeRef, else refused |
| `ArtifactRecords.TypeRoundTrip` | `server_entry/project/graph/compiled_persistence.cpp:509-568` | a written type slot is read back iff a free slot is blank, an aggregate has no enum attributes, and the definition lies in its arena |
| `ArtifactRecords.ParsedType` | `server_entry/project/graph/compiled_persistence.cpp:509-568` | every type slot that is read satisfies those conditions |
| `ArtifactRecords.CanonicalRoundTrip` | `server_entry/project/graph/compiled_persistence.cpp:570-586` | a written canonical type is read back |
| `ArtifactRecords.DecodeRecords` | `server_entry/project/graph/compiled_persistence.cpp:397-589` | a section is decoded iff every record is, in order; every read stays inside the file |
| `ArtifactRecords.WriteRecords` | `server_entry/project/graph/compiled_persistence.cpp:1116-1223` | the records of a section are written one behind the other and nothing else is touched |
| `Artifact.WrittenString` | `server_entry/project/graph/compiled_persistence.cpp:384-431` | a written string is read back, except a live empty string at offset 2^32-1, which comes back as a free slot |
| `Artifact.WriteStrings` | `server_entry/project/graph/compiled_persistence.cpp:1064-1114` | records and characters of all strings, written in one pass |
| `Artifact.WriteSections` | `server_entry/project/graph/compiled_persistence.cpp:1064-1223` | all eight sections at their planned places |
| `Artifact.PlacedStands` | `server_entry/project/graph/compiled_persistence.cpp:1064-1223` | no section overwrites another |
| `Artifact.SealArtifact` | `server_entry/project/graph/compiled_persistence.cpp:1225-1242` | the sealed file validates, and only hash and checksum fields changed |
| `Artifact.ValidateHeader` | `server_entry/project/graph/compiled_persistence.cpp:341-382` | accepts iff all fixed fields, the checksum and the hash agree |
| `Artifact.ValidateCrossReferences` | `server_entry/project/graph/compiled_persistence.cpp:591-640` | accepts iff all names are live strings and all TypeRefs are inside the table |
| `Artifact.Encode` | `server_entry/project/graph/compiled_persistence.cpp:1246-1312` | succeeds iff all counts fit 32 bits; the file holds header, directory, images and zero gaps, and is sealed |
| `Artifact.Decode` | `server_entry/project/graph/compiled_persistence.cpp:642-710` | accepts a file iff it is the artifact of some state, and answers that state |
| `Artifact.OneReading` | `server_entry/project/graph/compiled_persistence.cpp:642-710` | a file carries at most one state |
| `Artifact.WrittenIsArtifact` | `server_entry/project/graph/compiled_persistence.cpp:1020-1242` | the encoder writes the artifact of a state iff the state is persistable |
| `Artifact.SaveAndLoad` | `server_entry/project/graph/compiled_persistence.cpp:1246-1312` | saving and loading gives the same state iff it is persistable |
| `Artifact.LoadedIsPersistable` | `server_entry/project/graph/compiled_persistence.cpp:591-710` | whatever the decoder accepts has valid records and references and can be saved again, up to the lost-string case |
| `Artifact.EmptyStringLost` | `server_entry/project/graph/compiled_persistence.cpp:1064-1114` | a concrete state that is not restored: an empty string behind 2^32-1 characters |
| `CompiledGraph.ImportTable` | `server_entry/project/graph/graph.cpp:777-869` | accepts iff the builtin prefix is exact, every later entry is valid and none repeats; then the table is well formed and both indexes are exact |
| `CompiledGraph.ImportTypes` | `server_entry/project/graph/graph.cpp:661-712` | accepts iff every live slot has its definition inside its arena and a storable underlying type; free slots are exactly the empty ones |
| `CompiledGraph.ImportEntities` | `server_entry/project/graph/graph.cpp:714-748` | accepts iff slot zero is dead and every live entity refers to a live type of its kind |
| `CompiledGraph.ImportIdentities` | `server_entry/project/graph/graph.cpp:750-775` | accepts iff identities exist, no two names above zero share one, and a live entity knows its name |
| `CompiledGraph.MarkLive` | `server_entry/project/graph/graph.cpp:878-907` | an entry is live iff its chain ends in a builtin or a live slot |
| `CompiledGraph.MembersLive` | `server_entry/project/graph/graph.cpp:909-926` | accepts iff every member of every defined live aggregate is live |
| `CompiledGraph.IndexNeverCorrupt` | `server_entry/project/graph/graph.cpp:928-944` | after the import checks the dependency rebuild cannot report corruption |
| `CompiledGraph.GraphOwner.ImportCompiled` | `server_entry/project/graph/graph.cpp:621-965` | accepts iff the checks hold; then the Graph is the input and satisfies the reference invariants; a refusal leaves the owner untouched |
| `CompiledGraph.GraphOwner.ExportCompiled` | `server_entry/project/graph/graph.cpp:546-619` | exports exactly the projection from which import restores the Graph |
| `CompiledGraph.ExportAcceptable` | `server_entry/project/graph/graph.cpp:546-619` | an export of a sound Graph is accepted iff its entity table is not empty and every live entity finds a live type of its kind in its slot |
| `CompiledGraph.IndexUnique` | `server_entry/project/graph/graph.cpp:777-869` | the lookup maps are determined by the table |
| `CompiledGraph.ImportOfExport` | `server_entry/project/graph/graph.cpp:546-965` | import of an export restores entities, identities, types, arenas, table, lookup maps and dependency sets |
| `CompiledGraph.ExportThenImport` | `server_entry/project/graph/graph.cpp:546-965` | the whole round trip, under the same exact condition; the books come back exact whatever they were, and the identity counter iff it was the size of the entity table |
| `CompiledGraph.OwnershipUnchecked` | `server_entry/project/graph/graph.cpp:714-775` | import accepts two entities over one type slot, and live entities without identity |
| `Checkpoint.ImportSlots` | `server_entry/project/string/string_registry.cpp:131-182` | accepts iff no string occurs twice; then the lookup index leads every live string to its identifier and nothing else |
| `Checkpoint.Read` | `server_entry/project/graph/compiled_persistence.cpp:1420-1500` | loads iff the file is the artifact of a state with distinct strings and an acceptable Graph, and answers that state |
| `Checkpoint.SaveAndRestore` | `server_entry/project/graph/graph_manager.cpp:92-180` | a sound Graph whose names are spelled is restored iff counts fit 32 bits, no string occurs twice, the entity table is not empty and every live entity finds a type of its kind |
| `GraphCommits.DoesKeepsDraft` | `server_entry/project/graph/graph.cpp:1632-2036` | every operation of an update keeps types, identities and entities in order together: a live entity has a name, an identity and a slot the table knows |
| `GraphCommits.CommitSettles` | `server_entry/project/graph/graph.cpp:4076-4211` | a commit of either mode leaves a Graph that is sound for export, whatever the update did |
| `GraphCommits.ReloadSettles` | `server_entry/project/graph/graph.cpp:621-965` | so does loading a checkpoint, with the same content |
| `GraphCommits.ExportOverHistory` | `server_entry/project/graph/graph.cpp:546-965` | over every history of commits, of increments inside their tables, and reloads an export is accepted iff there is an entity table and every live entity finds a live type of its kind |
| `EntityHousing.KindPublished` | `server_entry/project/graph/graph.cpp:2972-3000` | what an update sees in a slot is what its commit leaves there, in either mode |
| `EntityHousing.HousedIff` | `server_entry/project/graph/graph.cpp:714-748` | a commit houses every entity iff the finished draft did |
| `EntityHousing.HousedUnlessEvicted` | `server_entry/project/graph/graph.cpp:1632-2036` | an operation leaves an entity without a type of its kind exactly when it takes or frees a slot in which another one, of another kind, lives |
| `EntityHousing.ConsiderateHistory` | `server_entry/project/graph/graph.cpp:546-965` | in a history without such operations every state is exported as an accepted checkpoint as soon as it has an entity table; SlotHistory.EverythingLoads says which histories of the slot allocator are such |
| `EntityHousing.EvictionRefused` | `server_entry/project/graph/graph.cpp:741-743` | a commit whose last operation is one cannot be loaded again |
| `EntityHousing.SharedSlotCommitted` | `server_entry/project/graph/graph.cpp:2010-2027` | the concrete case, as a sequence of calls: no check refuses a rebuild that uses slot 1 for an aggregate and for an anonymous enum, and its export is refused as corrupt |
| `Allocation.LinkStep` | `server_entry/project/graph/graph.cpp:1632-2036` | an operation that takes its slots from the allocator keeps draft and allocator together: the same touched slots, the same counter, every entity in the slot it holds |
| `Allocation.AllocatedConsiderate` | `server_entry/project/graph/graph.cpp:1632-2036` | with slots from the allocator, an increment over valid slots takes and frees no slot of another entity, and neither does a rebuild that draws nothing from the old free list |
| `Allocation.IncrementContained` | `server_entry/project/graph/graph.cpp:1799-1803` | an increment is inside its table iff every slot that its replaced Sources had recorded for anonymous enums is below its final counter; from slots whose enums lie inside the table it always is |
| `SlotHistory.RebuildHousedIff` | `server_entry/project/graph/graph.cpp:2010-2027` | a rebuild that does draw houses every entity iff no live aggregate is left in a slot that an anonymous enum drew after the last declaration in it |
| `SlotHistory.CommitSlots` | `server_entry/project/graph/graph.cpp:4076-4211` | after a commit the slots told from the entity records and the arenas are those of the allocator, valid and inside the table under its exact conditions |
| `SlotHistory.DrawsNothingIff` | `server_entry/project/graph/graph.cpp:2010-2027` | a rebuild draws nothing iff the old free list is empty or it holds no anonymous enum |
| `SlotHistory.RunIsHistory` | `server_entry/project/graph/graph.cpp:3680-4212` | a history with slots from the allocator is a history of commits and reloads |
| `SlotHistory.NothingLost` | `server_entry/project/graph/graph.cpp:1799-1803` | if no rebuild of such a history drew a slot at or above its own final counter, every increment that can be drafted next is inside its table |
| `SlotHistory.EverythingLoads` | `server_entry/project/graph/graph.cpp:546-965` | if no rebuild of such a history drew from the old free list, every entity finds a type of its kind in every state, and every state with an entity table can be saved and loaded again |
| `SemanticSchedule.TakenValid` | `server_entry/project/frontend/source_frontend_generation.cpp:737-773` | whoever takes a Source off the queue claims it first, and its direct dependencies are parsed |
| `SemanticSchedule.FinishedValid` | `server_entry/project/frontend/source_frontend_generation.cpp:1034-1083` | finishing keeps every remaining count equal to the unparsed dependencies and queues exactly the Sources that became ready |
| `SemanticSchedule.StepKeepsInv` | `server_entry/project/frontend/source_frontend_generation.cpp:1441-1660` | every step of every worker, failing ones included, keeps counts, queue, claims and log right |
| `SemanticSchedule.ParsedOnceInOrder` | `server_entry/project/frontend/source_frontend_generation.cpp:1441-1660` | under every interleaving no Source is parsed twice or before its direct dependencies |
| `SemanticSchedule.NoDeadlock` | `server_entry/project/frontend/source_frontend_generation.cpp:1441-1660` | on an acyclic graph some worker can move without failing as long as one has not stopped |
| `SemanticSchedule.StepsRunOut` | `server_entry/project/frontend/source_frontend_generation.cpp:1441-1660` | every step uses one up, so every run ends |
| `SemanticSchedule.AllParsedAtEnd` | `server_entry/project/frontend/source_frontend_generation.cpp:1441-1660` | when all workers, at least one, have stopped without a failure, every Source is parsed |
| `SemanticSchedule.Scheduler.TakeReady` | `server_entry/project/frontend/source_frontend_generation.cpp:737-773` | the queue discipline, in place |
| `SemanticSchedule.Scheduler.FinishParse` | `server_entry/project/frontend/source_frontend_generation.cpp:1034-1083` | the release of dependents, in place |
| `SemanticSchedule.PartitionExact` | `server_entry/project/frontend/source_frontend_generation.cpp:1582-1600` | the static partition gives every independent Source to exactly one worker |
| `SemanticSchedule.SharesCover` | `server_entry/project/frontend/source_frontend_generation.cpp:1582-1600` | workers with static shares parse no Source twice, and every Source when all have finished without a failure |
| `SemanticSchedule.PublishOrder` | `server_entry/project/frontend/source_frontend_generation.cpp:1690-1713` | publication goes through the parsed Sources in ascending identity |
| `SemanticSchedule.PublicationDeterministic` | `server_entry/project/frontend/source_frontend_generation.cpp:1690-1713` | the published order does not depend on the order of completion |
| `SourceDiscovery.DiscoverOne` | `server_entry/project/frontend/source_frontend_generation.cpp:315-735` | one Source: its dependencies are recorded both ways, counted, and newly known ones queued |
| `SourceDiscovery.DiscoverWave` | `server_entry/project/frontend/source_frontend_generation.cpp:315-735` | a wave makes progress and leaves the records exact |
| `SourceDiscovery.Discover` | `server_entry/project/frontend/source_frontend_generation.cpp:661-735` | discovery finds the least set with the roots that is closed under includes, and leaves a valid start of the semantic phase |
| `InterfaceTrees.FindRecursive` | `server_entry/project/parser/source_environment.cpp:138-157` | the recursive lookup ends and finds the first binding in depth-first order |
| `InterfaceTrees.FindExact` | `server_entry/project/parser/source_environment.cpp:180-224` | the positional lookup sees exactly the includes before the offset |
| `InterfaceTrees.UnfoldStable` | `server_entry/project/frontend/source_frontend_cache.cpp:137-162` | adding interfaces changes nothing that was visible |
| `IncrementalFrontend.MarkAffected` | `server_entry/project/frontend/source_frontend_incremental.cpp:325-360` | the affected Sources are the changes and their dependents, each once |
| `IncrementalFrontend.AffectedShelters` | `server_entry/project/frontend/source_frontend_incremental.cpp:325-360` | what is cached and not affected is unchanged and includes nothing affected, also when new Sources include changed ones |
| `IncrementalFrontend.ImportsThere` | `server_entry/project/frontend/source_frontend_generation.cpp:661-699` | every include of a Source about to be parsed has its interface: a new one if affected or new, the committed one otherwise |
| `IncrementalFrontend.CachedIsFull` | `server_entry/project/frontend/source_frontend_incremental.cpp:538-615` | an exact cache shows for every Source what a full rebuild shows |
| `IncrementalFrontend.NothingDangles` | `server_entry/project/frontend/source_frontend_cache.cpp:56-162` | no cached interface imports one that left the cache |
| `IncrementalFrontend.ParseReady` | `server_entry/project/frontend/source_frontend_incremental.cpp:476-511` | the ready queue parses every discovered Source and leaves the combined cache exact |
| `IncrementalFrontend.ReplaceInterfaces` | `server_entry/project/frontend/source_frontend_cache.cpp:56-162` | new interfaces replace, removed Sources give up theirs, all others stay |
| `IncrementalFrontend.Build` | `server_entry/project/frontend/source_frontend_incremental.cpp:325-615` | after a commit the cached interfaces are those of a full rebuild, for exactly the Sources reached from the changes, their dependents and the cache; a cached Source is parsed only if affected; a failed commit leaves the cache |
| `CompositionWorkers.StepKeepsInv` | `server_entry/project/project_composition_resolver.cpp:184-308` | until somebody breaks down every critical section keeps outstanding equal to queued plus active jobs, and the pool is stopped exactly when it is zero |
| `CompositionWorkers.LoadedAtMostOnce` | `server_entry/project/project_composition_resolver.cpp:184-215` | over every run, breakdowns included, no path is taken twice and the root never |
| `CompositionWorkers.NoDeadlock` | `server_entry/project/project_composition_resolver.cpp:225-328` | as long as the failure flag is down and a worker has not left, some worker can move without a fault or a spurious wake-up |
| `CompositionWorkers.StepsRunOut` | `server_entry/project/project_composition_resolver.cpp:225-328` | every step but a spurious wake-up uses one of finitely many up |
| `CompositionWorkers.HangIff` | `server_entry/project/project_composition_resolver.cpp:225-328` | after the flag was first raised join can hang iff, at the moment of raising it without the lock, some worker has found nothing to do and is not asleep yet |
| `CompositionWorkers.StuckIsBroken` | `server_entry/project/project_composition_resolver.cpp:225-328` | a pool that hangs has raised the failure flag |
| `CompositionWorkers.LostWakeup` | `server_entry/project/project_composition_resolver.cpp:312-328` | a concrete run in which the notification comes before the sleep and join never returns |
| `CompositionWorkers.RunsEnd` | `server_entry/project/project_composition_resolver.cpp:225-328` | with finitely many paths the length of every run is bounded, up to spurious wake-ups |
| `CompositionWorkers.EveryoneLeaves` | `server_entry/project/project_composition_resolver.cpp:225-349` | unless the flag was first raised while a worker was about to fall asleep, a run has come to its end iff every worker has left |
| `CompositionWorkers.OnlyReachableCached` | `server_entry/project/project_composition_resolver.cpp:184-215` | over every run, breakdowns included, only paths reachable from the root are looked at |
| `CompositionWorkers.EverythingReachableLoaded` | `server_entry/project/project_composition_resolver.cpp:225-308` | when all workers have left and nothing failed, every path reachable from the root is loaded |
| `CompositionTraversal.Traverse` | `server_entry/project/project_composition_resolver.cpp:399-490` | the iterative three-colour traversal ends and emits exactly the recursive first-visit expansion |
| `CompositionTraversal.CycleReportedIffReachable` | `server_entry/project/project_composition_resolver.cpp:399-490` | with all files loaded a cycle is reported iff one is reachable from the root |
| `CompositionTraversal.ComposedAfterLoading` | `server_entry/project/project_composition_resolver.cpp:112-399` | when all workers have left and nothing failed, what they loaded is what the traversal needs: it reports a cycle iff one is reachable and never a missing file |
| `CompositionTraversal.ExpandedTopological` | `server_entry/project/project_composition_resolver.cpp:399-490` | without a cycle files finish after their nested projects |
| `CompositionTraversal.EveryFileEmittedOnce` | `server_entry/project/project_composition_resolver.cpp:399-490` | the own items of every reachable file are emitted once |
| `CompositionTraversal.FastPathAgrees` | `server_entry/project/project_composition_resolver.cpp:112-153` | the fast path of a root without nested projects emits the same |
| `Utf8.EncodeThenDecode` | `server_entry/json/json_unicode.hpp:12-105` | decoding undoes encoding, whatever follows |
| `Utf8.DecodeThenEncode` | `server_entry/json/json_unicode.hpp:43-105` | only shortest forms of scalar values are accepted (section 4 of RFC 3629) |
| `Utf8.ValidIffEncoded` | `server_entry/json/json_unicode.hpp:43-105` | a byte string is valid iff it is the encoding of scalar values |
| `Utf8.Validate` | `server_entry/json/json_unicode.hpp:43-105` | the validation loop accepts exactly the valid byte strings |
| `JsonText.StringRoundTrip` | `server_entry/json/json_parser.cpp:204-359` | parse_string inverts quoted on every valid UTF-8 string (section 7 of RFC 8259) |
| `JsonText.ScanUndoesEscape` | `server_entry/json/json_escape.hpp:12-70` | escaping is undone wherever it starts |
| `JsonText.ScannedIsValid` | `server_entry/json/json_parser.cpp:204-359` | every string the parser accepts is valid UTF-8 |
| `JsonText.ShiftFits` | `server_entry/json/json_parser.cpp:425-436` | whether a number with a fraction or an exponent fits a double depends on its value, not on where the decimal point is written |
| `JsonText.NumberRoundTrip` | `server_entry/json/json_parser.cpp:361-456` | a printed 64-bit integer is parsed back, in front of anything that can end a number |
| `JsonDocument.ValueRoundTrip` | `server_entry/json/json_parser.cpp:37-202` | parsing a printed value gives its events and leaves what followed |
| `JsonDocument.AcceptedIsValid` | `server_entry/json/json_parser.cpp:13-359` | every text and key event of an accepted document is valid UTF-8 |
| `JsonDocument.DocumentRoundTrip` | `server_entry/json/json_parser.cpp:13-35` | a printed document parses to exactly its events (section 2 of RFC 8259) |
| `JsonWriter.Writer.BeforeValue` | `server_entry/json/json_writer.cpp:15-46` | a value may come exactly when root or container accepts one; the comma is written when due |
| `JsonWriter.Writer.String` | `server_entry/json/json_writer.cpp:134-136` | accepted iff a value may come and the text is valid UTF-8; one text event |
| `JsonWriter.Writer.IntegerValue` | `server_entry/json/json_writer.cpp:138-140` | accepted iff a value may come; one integer event |
| `JsonWriter.Writer.BooleanValue` | `server_entry/json/json_writer.cpp:162-164` | accepted iff a value may come; one boolean event |
| `JsonWriter.Writer.NullValue` | `server_entry/json/json_writer.cpp:166-168` | accepted iff a value may come; one null event |
| `JsonWriter.Writer.BeginObject` | `server_entry/json/json_writer.cpp:48-60` | accepted iff a value may come; one frame more |
| `JsonWriter.Writer.EndObject` | `server_entry/json/json_writer.cpp:62-72` | accepted iff the top frame is an object without an open key |
| `JsonWriter.Writer.BeginArray` | `server_entry/json/json_writer.cpp:74-86` | accepted iff a value may come; one frame more |
| `JsonWriter.Writer.EndArray` | `server_entry/json/json_writer.cpp:88-97` | accepted iff the top frame is an array |
| `JsonWriter.Writer.KeyName` | `server_entry/json/json_writer.cpp:110-132` | accepted iff the top frame is an object without an open key and the name is valid UTF-8 |
| `JsonWriter.Writer.Complete` | `server_entry/json/json_writer.cpp:170-172` | true iff valid, root written and nothing open; then parsing the output emits the events of all calls |
| `JsonParser.Parser.ReadString` | `server_entry/json/json_parser.cpp:204-359` | the in-place string reader is the specified one, with the same error and offset |
| `JsonParser.Parser.ReadNumber` | `server_entry/json/json_parser.cpp:361-456` | the in-place number reader is the specified one: the grammar, then 64 bits for an integer and the range of a double for anything else |
| `JsonParser.Parser.ReadArray` | `server_entry/json/json_parser.cpp:163-202` | the array loop is the specified recursion |
| `JsonParser.Parser.ReadObject` | `server_entry/json/json_parser.cpp:94-161` | the object loop is the specified recursion |
| `JsonParser.Parser.ReadValue` | `server_entry/json/json_parser.cpp:37-92` | the dispatch is the specified one |
| `JsonParser.Parser.Parse` | `server_entry/json/json_parser.cpp:13-35` | the whole parser accepts and emits exactly what the specification says, or reports its error and offset |
| `BuiltinTypes.FitsIntegral` | `server_entry/project/graph/graph.cpp:122-162` | accepted iff both types are integral and the value lies in the range of the target |
| `BuiltinTypes.ConversionKeepsValue` | `server_entry/project/graph/graph.cpp:164-178` | converted bits read in the target type give the same integer, under both ABIs |
| `Enumerators.SelectUnderlying` | `server_entry/project/graph/builtin_type.hpp:94-197` | selects the first of int, unsigned int, signed 64 and unsigned 64 that holds every value, and fails iff none does |
| `Enumerators.SelectionStoresExactly` | `server_entry/project/graph/graph.cpp:1428-1509` | every value is stored exactly in the selected type |
| `Enumerators.Number` | `server_entry/project/parser/parser.cpp:311-365` | accepted iff the literal fits its 64-bit type, and then exact; unsigned constants are at least 2^63 |
| `Enumerators.SumExact` | `server_entry/project/parser/parser.cpp:433-499` | an accepted sum is exact, and it is accepted iff it stays in the signed range, or without negative operand in the unsigned one |
| `Enumerators.SumIffHolds` | `server_entry/project/parser/parser.cpp:433-499` | acceptance of a sum depends on the two integers alone |
| `Enumerators.MixedSumRefused` | `server_entry/project/parser/parser.cpp:448-465` | 2^63 plus -1 is refused although the sum is representable |
| `Enumerators.IncrementExact` | `server_entry/project/parser/parser.cpp:501-523` | the successor is exact, and refused iff the constant is the largest of its type |
| `Enumerators.Expression` | `server_entry/project/parser/parser.cpp:433-499` | accepted iff every term has a value and every addition from the left holds; then the sum is exact |
| `Enumerators.EnumeratorValues` | `server_entry/project/parser/parser.cpp:627-715` | accepted values are exact sums or predecessor plus one; a refusal names the enumerator that stops the list |
| `Enumerators.AcceptedNeverStops` | `server_entry/project/parser/parser.cpp:627-715` | no list is both accepted and refused |
| `Enumerators.SuccessorNeeded` | `server_entry/project/parser/parser.cpp:700-712` | a list refused although its initializers are accepted: the first value has no successor, which the second does not need |
| `Enumerators.BuildContribution` | `server_entry/project/graph/graph.cpp:1428-1509` | one enum, with explicit, scoped or selected underlying type: accepted iff the type is storable and every enumerator is named and fits it, and then every value is stored exactly |
| `Enumerators.SelectedAccepts` | `server_entry/project/graph/graph.cpp:1428-1509` | an enum whose type was selected is refused only for an unnamed or unconvertible enumerator, never for its range |
| `Enumerators.EnumeratorSurvives` | `server_entry/project/graph/graph.cpp:1428-1509` | end to end: for explicit, scoped and selected underlying types the stored bits stand for the integer that the source spells, under both ABIs |

## Left out

- GraphUpdates.GraphUpdate.PreparePublish: the type stages only. The stages that concern identities, strings, contributions and slots are modelled in their own modules and composed in `GraphCommits` and `BuildTransaction`, not called from here; that every mentioned string is live, and the generation check against a concurrent commit, are not modelled.
- GraphUpdates.GraphUpdate.AssignType: the type half of materialize; which slot is taken is the subject of `TypeSlots`, the entity record of `GraphCommits`, the counters behind it of `ContributionUpdates`.
- GraphUpdates.GraphUpdate.AddAnonymousEnum: whether the slot comes off the free list is told by the caller; `Allocation` ties it to the allocator.
- GraphUpdates.GraphUpdate.PublishPrepared: an increment that touches a slot outside its table, which the code writes out of bounds, is not published here; when this happens is stated by `SlotRuns.SafeIff` and `Allocation.IncrementContained`.
- SlotUpdates.SlotUpdate.Publish: the same.
- BuildTransaction.Transaction.PublishPrepared: the same.
- BuildTransaction.Transaction.Commit: the same.
- GraphUpdates.GraphUpdate.Touch: candidate slots are a map of this update; the generation tags behind it are the subject of `Overlay`.
- Overlay.LayerUpdate.Prepare: one fault per layer stands for every allocation or validation that can fail there.
- BuildTransaction.Transaction.Prepare: Source Manager and String Registry are vectors of records, and each of their stages, string retention and compaction among them, is one nondeterministic fault; the growth of the contribution vectors before publication is shown in `Overlay` only.
- BuildTransaction.Manager.Begin: the slots of the committed entities are passed in.
- ContributionUpdates.ContributionUpdate.Declare: counters are unbounded integers, the 32-bit overflow tests of the counters are not modelled.
- ContributionUpdates.MembersSurviveIff: member lists are lists of numbers; what a member refers to is the subject of `GraphUpdates`.
- SlotUpdates.SlotUpdate.AddAnonymousEnum: what the enum contains is not part of the slot model.
- StableIds.ReassignmentKeepsValid: identities are unbounded; the 32-bit exhaustion test is not modelled.
- Artifact.SealArtifact: SHA-256 and CRC-32C are arbitrary functions of the right result size, so nothing is said about corruption that collides.
- Artifact.SaveAndLoad: the file system between encoder and decoder (temporary file, flush, rename, parent directory) is not modelled.
- CompiledGraph.GraphOwner.ImportCompiled: clearing the candidate vectors of the owner and its generation counters is not modelled.
- Checkpoint.SaveAndRestore: decides the outcome when every name of the Graph is a live string and no string is in the lost position; that commits keep names live is a check of the Graph against the String Registry, which is not modelled.
- GraphCommits.CommitSettles: the numbers of the published Graph are assumed to fit their 32-bit and 64-bit records; free list and live counters are the subject of `TypeSlots`, and `SlotHistory` takes the published free list to be that of the allocator.
- GraphCommits.DoesKeepsDraft: an update is a sequence of operations over one value; which operations a Source gives rise to, and in what order, is left open. Where the slots come from is left open here as well and fixed in `Allocation`.
- SlotHistory.EverythingLoads: identities are renumbered once, after all other operations of an update; after a reload the contributions of the Sources are unknown, so that the next build is a rebuild.
- SemanticSchedule.StepKeepsInv: waiting is a step that is enabled or not. Here every change of the wait predicate and its notification are made under one mutex, so no wake-up is lost; asleep and awake are told apart in `CompositionWorkers`, where this matters.
- SourceDiscovery.Discover: include resolution is a given total map, acquisition of file contents in parallel and its failures are not modelled.
- IncrementalFrontend.Build: parsing is a function of content and visible interfaces that succeeds; a failed parse fails the build before anything is published. The transitive dependents of cached Sources come from the Source Manager, which is not part of this model, and are assumed closed.
- CompositionWorkers.StepKeepsInv: loading a configuration is a function of its path that may fail; a breakdown is possible wherever a worker runs code that allocates or locks.
- CompositionTraversal.Traverse: a sink that refuses an item ends the traversal in the source; here the sink accepts.
- JsonWriter.Writer.Complete: floating-point numbers are left out; integers are spelled in decimal digits.
- JsonParser.Parser.ReadNumber: the event of a number with a fraction or an exponent carries its text, not the double nearest to it; that nearest double decides acceptance, where a value rounded to zero counts as out of range, as in the Visual C++ standard library, for which the project files are written.
- Enumerators.EnumeratorValues: works on the list of enumerators with their terms; tokens, locations and the commas between them are not modelled.
- Allocation failure is one nondeterministic fault per stage; vector capacities and the reservations that make publication free of allocation are not modelled.
- Generation counters never wrap around, and transaction objects are not moved.
- Telemetry, metrics, diagnostics, logging and timing do not affect the state and are left out.
- String Registry and Source Manager: interning is assumed injective where names are compared, their own tables are not part of this model.
- The older frontend under server_entry/project/construction, the configuration loaders, the lexer and the declaration grammar of the parser are outside the model, which starts from what they deliver.
- SHA-256, CRC-32C, path normalisation, directory notifications and native file handles are foreign calls.
