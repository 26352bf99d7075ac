/** Saving a Graph to a checkpoint file and loading it into a detached Graph. */
module Checkpoint {
  import opened Artifact
  import opened ArtifactLayout
  import opened Collections
  import G = CompiledGraph
  import R = ArtifactRecords
  import S = CompiledState
  import T = TypeGraph

  /** Aggregates carry no enum attributes of their own. */
  ghost predicate PlainAggregates(image: G.Image) {
    forall t <- image.store.types :: t.Some? && t.value.kind.Aggregate? ==> t.value.enumeration == T.PLAIN
  }

  lemma TypeSaved(t: Option<T.TypeEntry>, members: nat, values: nat)
    requires t.Some? && t.value.kind.Aggregate? ==> t.value.enumeration == T.PLAIN
    requires G.TypeAccepted(G.ExportType(t), members, values)
    ensures R.TypeValid(G.ExportType(t), members, values)
  {
  }

  /** What a valid Graph exports consists of records that survive. */
  lemma {:induction false} ExportedRecords(image: G.Image)
    requires G.ImageSound(image) && PlainAggregates(image)
    ensures RecordsValid(G.Exported(image))
  {
    var s, g := image.store, G.Exported(image);
    G.ExportedNames(s);
    G.ExportedTypes(s);
    hide G.ImageSound, G.TypeAccepted, G.ExportType, R.TypeValid;
    forall e <- g.entities
      ensures R.EntityValid(e)
    {
      DeadOrLive(image, e);
    }
    forall t <- g.types
      ensures R.TypeValid(t, |g.members|, |g.enumValues|)
    {
      var i: nat :| i < |g.types| && g.types[i] == t;
      assert s.types[i] in s.types;
      TypeSaved(s.types[i], |s.members|, |s.values|);
    }
  }

  lemma {:induction false} DeadOrLive(image: G.Image, e: S.EntitySlot)
    requires G.ImageSound(image) && e in image.entities
    ensures R.EntityValid(e)
  {
  }

  // ----- Strings -----

  type Strings = seq<Option<S.Bytes>>

  /** No two live slots hold the same string. */
  ghost predicate Distinct(strings: Strings) {
    forall i: nat, j: nat :: i < j < |strings| && strings[i].Some? && strings[j].Some? ==> strings[i] != strings[j]
  }

  /** The lookup index leads every live string to its identifier, which is one-based. */
  ghost predicate LooksUp(strings: Strings, lookup: map<S.Bytes, nat>) {
    && (forall i: nat :: i < |strings| && strings[i].Some? ==> strings[i].value in lookup && lookup[strings[i].value] == i + 1)
    && (forall b <- lookup :: 0 < lookup[b] <= |strings| && strings[lookup[b] - 1] == Some(b))
  }

  lemma LooksUpNext(strings: Strings, i: nat, lookup: map<S.Bytes, nat>)
    requires i < |strings| && LooksUp(strings[..i], lookup) && Distinct(strings[..i])
    ensures strings[i].None? ==> LooksUp(strings[..i + 1], lookup) && Distinct(strings[..i + 1])
    ensures strings[i].Some? && strings[i].value !in lookup ==>
              LooksUp(strings[..i + 1], lookup[strings[i].value := i + 1]) && Distinct(strings[..i + 1])
    ensures strings[i].Some? && strings[i].value in lookup ==> !Distinct(strings)
  {
  }

  /** import_slots: the lookup index is built from the slots, and a string that occurs twice is corrupt. */
  method ImportSlots(strings: Strings) returns (ok: bool, lookup: map<S.Bytes, nat>)
    ensures ok <==> Distinct(strings)
    ensures ok ==> LooksUp(strings, lookup)
  {
    lookup := map[];
    for i := 0 to |strings|
      invariant LooksUp(strings[..i], lookup) && Distinct(strings[..i])
    {
      LooksUpNext(strings, i, lookup);
      if strings[i].Some? {
        if strings[i].value in lookup {
          return false, lookup;
        }
        lookup := lookup[strings[i].value := i + 1];
      }
    }
    TakeAll(strings);
    ok := true;
  }

  // ----- Reading and writing -----

  datatype Loaded = Loaded(strings: Strings, image: G.Image)

  /** What a checkpoint file must carry to be loaded. */
  ghost predicate Carries(seal: Seal, file: S.Bytes, state: S.ProjectState) {
    IsArtifact(seal, file, state) && Distinct(state.strings) && G.Acceptable(state.graph)
  }

  /** read_compiled_checkpoint, into a detached String Registry and Graph. */
  method Read(seal: Seal, file: S.Bytes) returns (r: Option<Loaded>, ghost state: S.ProjectState)
    ensures r.Some? ==> Carries(seal, file, state)
    ensures r.Some? ==> r.value.strings == state.strings && G.Restores(state.graph, r.value.image) && G.ImageValid(r.value.image)
    ensures r.None? ==> forall s :: !Carries(seal, file, s)
  {
    hide IsArtifact, Distinct, G.Acceptable, G.Restores, G.ImageValid, LooksUp;
    var decoded := Decode(seal, file);
    state := Nothing();
    if decoded.None? {
      return None, state;
    }
    state := decoded.value;
    var distinct, lookup := ImportSlots(decoded.value.strings);
    var detached := new G.GraphOwner(G.Image(decoded.value.graph.abi, T.EmptyStore(), [], [], [], 0, 0, 1, 0));
    var accepted := false;
    if distinct {
      accepted := detached.ImportCompiled(decoded.value.graph);
    }
    if !accepted {
      forall s
        ensures !Carries(seal, file, s)
      {
        if IsArtifact(seal, file, s) {
          OneReading(seal, file, s, state);
        }
      }
      return None, state;
    }
    return Some(Loaded(decoded.value.strings, detached.image)), state;
  }

  ghost function Nothing(): S.ProjectState {
    S.ProjectState([], S.GraphState(S.Abi(0, 8), [], [], [], [], [], []))
  }

  /** Every name of the Graph is a live string, and no string is in the position that a file cannot tell. */
  ghost predicate Spelled(strings: Strings, image: G.Image) {
    CrossReferenced(S.ProjectState(strings, G.Exported(image))) && NothingLost(strings)
  }

  /** write_compiled_checkpoint followed by load_compiled_checkpoint. A Graph whose names are
  spelled comes back exactly when the file's counts fit, no string occurs twice, there is an
  entity table and every live entity finds a type of its kind; what is loaded cannot be told
  from what was saved. */
  method SaveAndRestore(seal: Seal, strings: Strings, image: G.Image) returns (ok: bool, back: Loaded)
    requires SealValid(seal) && G.ImageSound(image) && PlainAggregates(image)
    ensures ok ==> Fit32(Counts(S.ProjectState(strings, G.Exported(image)))) && G.ImageValid(back.image)
    ensures Spelled(strings, image) ==>
              (ok <==>
                && Fit32(Counts(S.ProjectState(strings, G.Exported(image))))
                && Distinct(strings) && image.entities != [] && G.EntitiesHoused(image))
    ensures Spelled(strings, image) && ok ==>
              && back.strings == strings && G.SameContent(image, back.image)
              && (G.BooksExact(image) ==> G.Same(image, back.image))
  {
    back := Loaded(strings, image);
    ExportedRecords(image);
    G.ExportAcceptable(image);
    hide *;
    var owner := new G.GraphOwner(image);
    var exported := owner.ExportCompiled();
    var state := S.ProjectState(strings, exported);
    var file := Encode(seal, state);
    if file.None? {
      return false, back;
    }
    SpelledPersists(strings, image);
    WrittenIsArtifact(seal, file.value, state);
    var loaded;
    ghost var found;
    loaded, found := Read(seal, file.value);
    WrittenCarries(seal, file.value, state, found, loaded.Some?);
    if loaded.None? {
      return false, back;
    }
    if Spelled(strings, image) {
      G.ImportOfExport(image, loaded.value.image);
    }
    return true, loaded.value;
  }

  lemma SpelledPersists(strings: Strings, image: G.Image)
    requires G.ImageSound(image) && RecordsValid(G.Exported(image))
    ensures Spelled(strings, image) ==> Persistable(S.ProjectState(strings, G.Exported(image)))
  {
    hide RecordsValid, CrossReferenced, NothingLost, S.Supported;
    assert S.Supported(image.abi);
  }

  /** Reading the file of a state finds that state or refuses it. */
  lemma WrittenCarries(seal: Seal, file: S.Bytes, state: S.ProjectState, found: S.ProjectState, read: bool)
    requires if read then Carries(seal, file, found) else !Carries(seal, file, state)
    ensures IsArtifact(seal, file, state) ==> (read <==> Distinct(state.strings) && G.Acceptable(state.graph))
    ensures IsArtifact(seal, file, state) && read ==> found == state
  {
    hide IsArtifact, Distinct, G.Acceptable;
    if read && IsArtifact(seal, file, state) {
      OneReading(seal, file, found, state);
    }
  }
}
