/** One build over four layers: Source Manager, String Registry, Source
contributions and Graph.

A transaction prepares the layers one after the other, any of which may fail,
and only then publishes all of them. The project state of the manager says
whether the last build was published. The Graph and the contributions are the
classes that are modelled in full; Source Manager and String Registry are
vectors of records.
 */
module BuildTransaction {
  import opened Collections
  import opened Overlay
  import opened TypeTable
  import A = Artifact
  import C = CompiledState
  import G = CompiledGraph
  import H = GraphHistory
  import P = Checkpoint
  import T = TypeGraph
  import U = GraphUpdates
  import V = ContributionUpdates
  import W = GraphCandidate

  type Cell = Option<C.Bytes>

  datatype ProjectState = Building | Runnable | Broken

  datatype Mode = Rebuild | Incremental

  datatype Stage =
    | PrepareSources | PrepareStrings | RetainStrings | CompactStrings | PrepareContributions

  datatype TransactionState = Open | Ready | Done | Failed

  class Manager {
    const sources: Layer<Cell>
    const strings: Layer<Cell>
    const contributions: V.ContributionCache
    const graph: U.Graph
    var state: ProjectState
    /** Whether the contribution cache knows the contributions of every Source. */
    var complete: bool

    ghost predicate Valid()
      reads this, sources, strings, contributions, graph
    {
      sources != strings && sources.Valid() && strings.Valid() && contributions.Valid() && graph.Valid()
    }

    /** initialize: an initialized project is not runnable yet. */
    constructor ()
      ensures Valid() && state == Broken && complete
      ensures sources.committed == [] && strings.committed == [] && contributions.states == []
      ensures graph.Snapshot() == T.EmptyStore()
    {
      var a := new Layer<Cell>(None);
      var b := new Layer<Cell>(None);
      var c := new V.ContributionCache();
      var d := new U.Graph();
      sources, strings, contributions, graph := a, b, c, d;
      state, complete := Broken, true;
    }

    /** runnable_graph */
    method RunnableGraph() returns (found: bool)
      ensures found <==> state == Runnable
    {
      found := state == Runnable;
    }

    /** begin_build: an incremental build needs a complete contribution cache. `entities`
    are the slots of the committed entities by name. */
    method Begin(mode: Mode, entities: map<nat, nat>) returns (t: Transaction)
      requires Valid() && forall n <- entities :: 1 <= entities[n] <= |graph.types|
      modifies `state, sources`generations, strings`generations
      ensures fresh(t) && t.owner == this && t.Valid() && t.state == Open && state == Building && Valid()
      ensures t.full <==> mode == Rebuild || !complete
      ensures t.Unchanged() && t.sources.base == sources.committed && t.strings.base == strings.committed
      ensures sources.committed == old(sources.committed) && strings.committed == old(strings.committed)
    {
      state := Building;
      t := new Transaction(this, mode == Rebuild || !complete, entities);
    }

    /** load_compiled_checkpoint: a file that cannot be loaded changes no layer; one that can
    gives its strings and its Graph, and forgets the contributions, so the next build is a rebuild. */
    method LoadCompiled(seal: A.Seal, file: C.Bytes) returns (ok: bool, ghost loaded: C.ProjectState)
      requires Valid()
      modifies `state, `complete, strings`committed, contributions, graph
      ensures Valid()
      ensures ok <==> exists s :: P.Carries(seal, file, s)
      ensures !ok ==> state == Broken && complete == old(complete) && strings.committed == old(strings.committed)
                      && unchanged(contributions) && unchanged(graph)
      ensures ok ==>
                && P.Carries(seal, file, loaded) && state == Runnable && !complete
                && strings.committed == loaded.strings && contributions.states == []
                && exists image :: G.Restores(loaded.graph, image) && G.ImageValid(image) && graph.Snapshot() == image.store
    {
      hide P.Carries, G.Restores, G.ImageValid, T.Store.Valid, V.Recounted;
      state := Building;
      var read;
      read, loaded := P.Read(seal, file);
      if read.None? {
        state := Broken;
        return false, loaded;
      }
      var image := read.value.image;
      ImageStore(image);
      strings.committed := read.value.strings;
      graph.Swap(image.store);
      contributions.Invalidate();
      complete := false;
      state := Runnable;
      ok := true;
    }
  }

  class Transaction {
    const owner: Manager
    const full: bool
    const sources: LayerUpdate<Cell>
    const strings: LayerUpdate<Cell>
    const contributions: V.ContributionUpdate
    const graph: U.GraphUpdate
    var state: TransactionState

    ghost predicate Wired()
    {
      && owner.sources != owner.strings && sources != strings
      && sources.layer == owner.sources && strings.layer == owner.strings
      && contributions.owner == owner.contributions && graph.graph == owner.graph
      && contributions.full == graph.full == full
    }

    ghost predicate Valid()
      reads this, sources, strings, contributions, graph
      reads sources.layer, strings.layer, contributions.owner, graph.graph
    {
      && Wired()
      && (state == Open ==>
            && sources.Valid() && strings.Valid() && sources.phase.Active? && strings.phase.Active?
            && contributions.Valid() && graph.Active())
      && (state == Ready ==>
            && sources.Valid() && strings.Valid() && sources.phase.Prepared? && strings.phase.Prepared?
            && contributions.Valid() && !contributions.failed && graph.Ready())
    }

    /** Source Manager, String Registry and Graph are what they were when the build began;
    the contribution cache is written by publication only. */
    ghost predicate Unchanged()
      reads sources.layer, strings.layer, graph.graph
    {
      && sources.layer.committed == sources.base && strings.layer.committed == strings.base
      && graph.graph.Snapshot() == graph.base
    }

    ghost predicate Shows(u: LayerUpdate<Cell>)
      reads u, u.layer
    {
      forall i: nat :: Read(u.layer.committed, u.layer.blank, i) == u.Sees(i)
    }

    constructor (manager: Manager, reconstruct: bool, entities: map<nat, nat>)
      requires manager.Valid() && forall n <- entities :: 1 <= entities[n] <= |manager.graph.types|
      modifies manager.sources`generations, manager.strings`generations
      ensures Valid() && owner == manager && full == reconstruct && state == Open && fresh(this)
      ensures Unchanged() && manager.Valid()
      ensures sources.base == old(manager.sources.committed) && strings.base == old(manager.strings.committed)
      ensures graph.entityTypes == if full then map[] else entities
      ensures manager.sources.committed == old(manager.sources.committed)
      ensures manager.strings.committed == old(manager.strings.committed)
    {
      hide LayerUpdate.Valid, LayerUpdate.Sees, Layer.Valid, V.ContributionCache.Valid, V.ContributionUpdate.Valid;
      hide U.Graph.Valid, U.Graph.Snapshot, U.GraphUpdate.Active, U.GraphUpdate.Overlay;
      owner, full, state := manager, reconstruct, Open;
      var a := new LayerUpdate<Cell>(manager.sources, false);
      var b := new LayerUpdate<Cell>(manager.strings, false);
      var c := new V.ContributionUpdate(manager.contributions, reconstruct);
      var d := new U.GraphUpdate(manager.graph, reconstruct, entities);
      sources, strings, contributions, graph := a, b, c, d;
    }

    /** fail: every layer is cancelled, and the manager leaves the building state. */
    method Fail()
      requires Wired() && sources.Valid() && strings.Valid() && contributions.Valid()
      requires sources.phase.Active? || sources.phase.Prepared?
      requires strings.phase.Active? || strings.phase.Prepared?
      requires graph.CanRollBack() && !graph.committed
      modifies `state, owner`state, sources`phase, strings`phase, sources.layer`committed, strings.layer`committed
      modifies contributions`failed, graph`preparedOwnerGrowth, graph`prepared, graph`failure
      modifies graph.graph`types, graph.graph`namedTypeRefs, graph.graph`typeDependencies, graph.graph`reverseTypeDependents
      ensures Valid() && state == Failed && owner.state == Broken && Unchanged()
    {
      hide LayerUpdate.Valid, LayerUpdate.Sees, Layer.Valid, Tagged, Read, V.ContributionUpdate.Valid, U.GraphUpdate.CanRollBack;
      sources.Cancel();
      strings.Cancel();
      contributions.Cancel();
      graph.Cancel();
      state := Failed;
      owner.state := Broken;
    }

    /** prepare: the stages in their order; `faults` are those that fail for want of memory,
    `partial` says how far a failing stage had grown its vector already, and `growth` where
    the Graph runs out. The Graph also fails for what it refuses. */
    method Prepare(faults: set<Stage>, partial: nat, growth: U.GrowthStage) returns (ok: bool)
      requires Valid()
      modifies `state, owner`state, sources`phase, strings`phase, sources`size, strings`size
      modifies sources.layer`committed, strings.layer`committed, contributions`failed, graph
      modifies graph.graph`types, graph.graph`namedTypeRefs, graph.graph`typeDependencies, graph.graph`reverseTypeDependents
      ensures Valid()
      ensures ok ==> old(state) == Open && state == Ready && owner.state == old(owner.state)
      ensures ok ==> Met(full, faults) == {} && !old(graph.Refused()) && !old(contributions.failed)
      ensures ok ==> W.ResolvedFrom(graph.base, old(graph.Overlay()), graph.Overlay(), graph.entityTypes)
      ensures old(state) == Open && Met(full, faults) == {} && growth == U.NoFailure && !old(graph.Refused())
              && !old(contributions.failed) ==>
                ok || |graph.Table()| > MAX_U32 || |graph.rebuiltTable| > MAX_U32
      ensures old(state) == Open && !ok ==> state == Failed && owner.state == Broken && Unchanged()
      ensures old(state) != Open ==> state == old(state) && owner.state == old(owner.state)
    {
      hide LayerUpdate.Valid, LayerUpdate.Sees, Layer.Valid, Tagged, Read, V.ContributionUpdate.Valid;
      hide U.GraphUpdate.CanRollBack, U.GraphUpdate.Active, U.GraphUpdate.Ready, U.GraphUpdate.Refused, W.ResolvedFrom;
      hide U.Graph.Snapshot, U.GraphUpdate.Overlay, U.GraphUpdate.Table, Met;
      if state != Open {
        return false;
      }
      graph.ActiveRollsBack();
      ok := sources.Prepare(PrepareSources in faults, partial);
      if ok {
        ok := strings.Prepare(PrepareStrings in faults, partial);
      }
      if ok {
        var status := graph.PreparePublish(growth);
        ok := status == U.Success;
      }
      if ok && full {
        ok := RetainStrings !in faults && CompactStrings !in faults;
      }
      if ok {
        ok := PrepareContributions !in faults && !contributions.failed;
      }
      NothingMet(full, faults);
      if ok {
        state := Ready;
      } else {
        Fail();
      }
    }

    /** publish_prepared: every layer shows what its update saw. */
    method PublishPrepared()
      requires Valid() && state == Ready && (full || W.Contained(graph.Overlay()))
      modifies `state, owner`state, owner`complete, sources`phase, strings`phase, sources`size, strings`size
      modifies sources.layer`committed, strings.layer`committed, contributions, contributions.owner
      modifies graph`committed, graph`preparedOwnerGrowth, graph.graph
      ensures Valid() && state == Done && owner.state == Runnable && owner.complete
      ensures Shows(sources) && Shows(strings)
      ensures owner.contributions.Valid() && owner.contributions.states == old(contributions.now)
      ensures owner.contributions.counters == old(contributions.Counted()) && owner.contributions.entities == old(contributions.Entities())
      ensures graph.graph.Valid() && H.Step(graph.base, graph.AsCommit(), graph.graph.Snapshot())
    {
      hide LayerUpdate.Valid, LayerUpdate.Sees, Layer.Valid, Tagged, Read, V.ContributionUpdate.Valid, V.Recounted;
      hide U.GraphUpdate.CanRollBack, U.GraphUpdate.Active, U.GraphUpdate.Ready, T.Store.Valid, H.Step;
      sources.Publish();
      strings.Publish();
      contributions.Publish();
      graph.PublishPrepared();
      owner.complete := true;
      state := Done;
      owner.state := Runnable;
    }

    /** commit: either every layer shows the build, or none has changed. That an increment
    touches no slot beyond its tables is taken for granted, as publication does. */
    method Commit(faults: set<Stage>, partial: nat, growth: U.GrowthStage) returns (ok: bool)
      requires Valid() && state == Open && (full || W.Contained(graph.Overlay()))
      modifies `state, owner`state, owner`complete, sources`phase, strings`phase, sources`size, strings`size
      modifies sources.layer`committed, strings.layer`committed, contributions, contributions.owner, graph, graph.graph
      ensures Valid()
      ensures ok ==> Met(full, faults) == {} && !old(graph.Refused()) && !old(contributions.failed)
      ensures Met(full, faults) == {} && growth == U.NoFailure && !old(graph.Refused()) && !old(contributions.failed) ==>
                ok || |graph.Table()| > MAX_U32 || |graph.rebuiltTable| > MAX_U32
      ensures ok ==>
                && owner.state == Runnable && owner.complete && Shows(sources) && Shows(strings)
                && owner.contributions.Valid() && owner.contributions.states == old(contributions.now)
                && owner.contributions.counters == old(contributions.Counted())
                && owner.contributions.entities == old(contributions.Entities())
                && graph.graph.Valid() && H.Step(graph.base, graph.AsCommit(), graph.graph.Snapshot())
                && W.ResolvedFrom(graph.base, old(graph.Overlay()), graph.Overlay(), graph.entityTypes)
      ensures !ok ==> owner.state == Broken && owner.complete == old(owner.complete) && Unchanged() && unchanged(contributions.owner)
    {
      hide *;
      ghost var drafted := graph.Overlay();
      ok := Prepare(faults, partial, growth);
      if ok {
        U.ResolvedStays(graph.base, drafted, graph.Overlay(), graph.entityTypes);
        PublishPrepared();
      }
    }

    /** The destructor: an unfinished transaction fails. */
    method Close()
      requires Valid()
      modifies `state, owner`state, sources`phase, strings`phase, sources.layer`committed, strings.layer`committed
      modifies contributions`failed, graph`preparedOwnerGrowth, graph`prepared, graph`failure
      modifies graph.graph`types, graph.graph`namedTypeRefs, graph.graph`typeDependencies, graph.graph`reverseTypeDependents
      ensures Valid() && (state == Done || state == Failed)
      ensures old(state) == Open || old(state) == Ready ==> state == Failed && owner.state == Broken && Unchanged()
      ensures old(state) == Done || old(state) == Failed ==> state == old(state) && owner.state == old(owner.state)
    {
      hide LayerUpdate.Valid, V.ContributionUpdate.Valid, U.GraphUpdate.CanRollBack, U.GraphUpdate.Active;
      if state == Open {
        graph.ActiveRollsBack();
      }
      if state == Open || state == Ready {
        Fail();
      }
    }
  }

  /** Strings are retained and compacted by a rebuild only. */
  function Met(full: bool, faults: set<Stage>): set<Stage> {
    if full then faults else faults - {RetainStrings, CompactStrings}
  }

  lemma NothingMet(full: bool, faults: set<Stage>)
    ensures Met(full, faults) == {} <==>
            && PrepareSources !in faults && PrepareStrings !in faults && PrepareContributions !in faults
            && (full ==> RetainStrings !in faults && CompactStrings !in faults)
  {
    if Met(full, faults) != {} {
      var s :| s in Met(full, faults);
      match s {
        case PrepareSources =>
        case PrepareStrings =>
        case RetainStrings =>
        case CompactStrings =>
        case PrepareContributions =>
      }
    }
  }

  lemma ImageStore(image: G.Image)
    requires G.ImageValid(image)
    ensures image.store.Valid()
  {
  }
}
