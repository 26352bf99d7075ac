/** The incremental frontend build.

The cache holds one interface per Source. A build parses the Sources that are
affected by a change and those it has not seen before; everything else is taken
from the cache. Parsing is a function of the Source's content and of the
interfaces it includes, so the result can be compared with a build from nothing.
 */
module IncrementalFrontend {
  import opened Collections
  import opened SemanticSchedule
  import opened SourceDiscovery
  import opened InterfaceTrees

  /** The present Sources with their content. */
  type World = map<nat, Content>

  /** What the frontend is given: include resolution and the parser. */
  datatype Language = Language(resolve: (nat, Content) -> seq<nat>, parse: (Content, seq<Tree>) -> Local)

  ghost function IncludesOf(lang: Language, w: World, s: nat): seq<nat>
    requires s in w
  {
    lang.resolve(s, w[s])
  }

  /** Includes resolve to present Sources, each once, and never in a cycle. */
  ghost predicate Resolvable(lang: Language, w: World, rank: map<nat, nat>) {
    forall s <- w ::
      && NoDuplicates(IncludesOf(lang, w, s))
      && forall d <- IncludesOf(lang, w, s) :: d in w && s in rank && d in rank && rank[d] < rank[s]
  }

  function RankOf(rank: map<nat, nat>, s: nat): nat {
    if s in rank then rank[s] else 0
  }

  // ----- The build from nothing -----

  /** The interface of a Source in a full rebuild. */
  ghost function FullTree(lang: Language, w: World, rank: map<nat, nat>, s: nat): Tree
    requires Resolvable(lang, w, rank) && s in w
    decreases RankOf(rank, s), 1, 0
  {
    var imports := FullTrees(lang, w, rank, s, |IncludesOf(lang, w, s)|);
    Tree(lang.parse(w[s], imports), imports)
  }

  ghost function FullTrees(lang: Language, w: World, rank: map<nat, nat>, s: nat, n: nat): (trees: seq<Tree>)
    requires Resolvable(lang, w, rank) && s in w && n <= |IncludesOf(lang, w, s)|
    ensures |trees| == n
    ensures forall i: nat :: i < n ==>
              IncludesOf(lang, w, s)[i] in w && trees[i] == FullTree(lang, w, rank, IncludesOf(lang, w, s)[i])
    decreases RankOf(rank, s), 0, n
  {
    if n == 0 then []
    else
      assert IncludesOf(lang, w, s)[n - 1] in IncludesOf(lang, w, s);
      FullTrees(lang, w, rank, s, n - 1) + [FullTree(lang, w, rank, IncludesOf(lang, w, s)[n - 1])]
  }

  // ----- The cache -----

  type Cache = map<nat, Ref>

  /** One cached interface was parsed from the current content and the cached
  interfaces of its includes, and refers to exactly those. */
  ghost predicate EntryExact(lang: Language, w: World, objects: seq<Node>, cache: Cache, s: nat)
    requires Grounded(objects)
  {
    && s in cache && s in w && cache[s] < |objects|
    && (forall d <- IncludesOf(lang, w, s) :: d in cache)
    && |objects[cache[s]].imports| == |IncludesOf(lang, w, s)|
    && (forall i: nat :: i < |IncludesOf(lang, w, s)| ==> objects[cache[s]].imports[i] == cache[IncludesOf(lang, w, s)[i]])
    && objects[cache[s]].local == lang.parse(w[s], UnfoldAll(objects, cache[s], |objects[cache[s]].imports|))
  }

  ghost predicate CacheExact(lang: Language, w: World, objects: seq<Node>, cache: Cache) {
    && Grounded(objects)
    && (forall s <- cache :: EntryExact(lang, w, objects, cache, s))
    && (forall a <- cache, b <- cache :: cache[a] == cache[b] ==> a == b)
  }

  /** An exact cache shows what a build from nothing shows. */
  lemma {:induction false} CachedIsFull(lang: Language, w: World, rank: map<nat, nat>, objects: seq<Node>,
                                        cache: Cache, s: nat)
    requires Resolvable(lang, w, rank) && CacheExact(lang, w, objects, cache) && s in cache
    ensures s in w && cache[s] < |objects| && Unfold(objects, cache[s]) == FullTree(lang, w, rank, s)
    decreases RankOf(rank, s)
  {
    assert EntryExact(lang, w, objects, cache, s);
    var list := IncludesOf(lang, w, s);
    var trees := UnfoldAll(objects, cache[s], |list|);
    forall i: nat | i < |list|
      ensures trees[i] == FullTrees(lang, w, rank, s, |list|)[i]
    {
      assert list[i] in list;
      CachedIsFull(lang, w, rank, objects, cache, list[i]);
    }
    assert trees == FullTrees(lang, w, rank, s, |list|);
  }

  /** No interface in the cache refers to an interface outside it. */
  lemma {:induction false} NothingDangles(lang: Language, w: World, objects: seq<Node>, cache: Cache, s: nat, r: Ref)
    requires CacheExact(lang, w, objects, cache) && s in cache
    requires cache[s] < |objects| && r in objects[cache[s]].imports
    ensures exists d :: d in cache && cache[d] == r
  {
    assert EntryExact(lang, w, objects, cache, s);
    var i: nat :| i < |objects[cache[s]].imports| && objects[cache[s]].imports[i] == r;
    var d := IncludesOf(lang, w, s)[i];
    assert d in IncludesOf(lang, w, s);
    assert d in cache && cache[d] == r;
  }

  // ----- The affected Sources -----

  ghost predicate Includes1(lang: Language, w: World, s: nat, d: nat) {
    s in w && d in IncludesOf(lang, w, s)
  }

  /** collect_dependents answers with every committed Source that includes a Source, directly
  or not. Nothing is known about Sources that no build has seen yet. */
  ghost predicate DependentsClosed(lang: Language, w: World, cache: Cache, dependents: map<nat, seq<nat>>) {
    forall c <- dependents, d, s <- cache ::
      (d == c || d in dependents[c]) && Includes1(lang, w, s, d) ==> s in dependents[c]
  }

  /** mark_affected over all changes and their dependents. */
  method MarkAffected(changes: seq<nat>, dependents: map<nat, seq<nat>>) returns (affected: seq<nat>)
    requires forall c <- changes :: c in dependents
    ensures NoDuplicates(affected)
    ensures forall x :: x in affected <==> exists c :: c in changes && (x == c || x in dependents[c])
  {
    affected := [];
    for i := 0 to |changes|
      invariant NoDuplicates(affected)
      invariant forall x :: x in affected <==> exists c :: c in changes[..i] && (x == c || x in dependents[c])
    {
      TakeNext(changes, i);
      var change := changes[i];
      ghost var before := affected;
      affected := PushNew(affected, change);
      for j := 0 to |dependents[change]|
        invariant NoDuplicates(affected)
        invariant forall x :: x in affected <==> x in before || x == change || x in dependents[change][..j]
      {
        TakeNext(dependents[change], j);
        affected := PushNew(affected, dependents[change][j]);
      }
      TakeAll(dependents[change]);
      assert change in changes[..i + 1];
      forall x
        ensures x in affected <==> exists c :: c in changes[..i + 1] && (x == c || x in dependents[c])
      {
        if x in before {
          var c :| c in changes[..i] && (x == c || x in dependents[c]);
          assert c in changes[..i + 1];
        }
      }
    }
    TakeAll(changes);
  }

  /** A cached Source that is not affected is unchanged, and so is everything it includes. */
  ghost predicate Sheltered(lang: Language, w0: World, w1: World, cache: Cache, affected: set<nat>) {
    forall s <- cache | s !in affected ::
      && s in w0 && s in w1 && w0[s] == w1[s]
      && forall d <- IncludesOf(lang, w0, s) :: d !in affected
  }

  /** A cached Source that is no change is present before and after with the same content.
  Other Sources may be there now without being listed: they are found by way of an include. */
  ghost predicate OnlyChanged(cache: Cache, w0: World, w1: World, changes: seq<nat>) {
    forall s <- cache | s !in changes :: s in w0 && s in w1 && w0[s] == w1[s]
  }

  lemma {:induction false} AffectedShelters(lang: Language, w0: World, w1: World, cache: Cache, changes: seq<nat>,
                                            dependents: map<nat, seq<nat>>, affected: seq<nat>)
    requires (forall c <- changes :: c in dependents) && DependentsClosed(lang, w0, cache, dependents)
    requires forall x :: x in affected <==> exists c :: c in changes && (x == c || x in dependents[c])
    requires OnlyChanged(cache, w0, w1, changes)
    ensures Sheltered(lang, w0, w1, cache, SetOf(affected))
  {
    assert forall s <- cache :: s !in affected ==> s !in changes;
    forall s <- cache, d | s in w0 && d in IncludesOf(lang, w0, s) && d in affected
      ensures s in affected
    {
      var c :| c in changes && (d == c || d in dependents[c]);
      assert Includes1(lang, w0, s, d);
      assert s in dependents[c];
    }
  }

  // ----- What has to be parsed -----

  predicate Reused(cache: Cache, affected: seq<nat>, s: nat) {
    s in cache && s !in affected
  }

  /** The includes of a Source that are not taken from the cache. */
  function Pending(list: seq<nat>, cache: Cache, affected: seq<nat>): (r: seq<nat>)
    ensures forall d :: d in r <==> d in list && !Reused(cache, affected, d)
    ensures NoDuplicates(list) ==> NoDuplicates(r)
  {
    if list == [] then []
    else
      var rest := Pending(list[1..], cache, affected);
      assert list == [list[0]] + list[1..];
      assert NoDuplicates(list) ==> NoDuplicates(list[1..]) && list[0] !in list[1..];
      if Reused(cache, affected, list[0]) then rest else [list[0]] + rest
  }

  /** The include graph of this build: Sources that are not taken from the cache. */
  function PendingGraph(lang: Language, w: World, cache: Cache, affected: seq<nat>): (g: map<nat, seq<nat>>)
    ensures forall s :: s in g <==> s in w && !Reused(cache, affected, s)
    ensures forall s <- g :: g[s] == Pending(lang.resolve(s, w[s]), cache, affected)
  {
    map s | s in w && !Reused(cache, affected, s) :: Pending(lang.resolve(s, w[s]), cache, affected)
  }

  lemma {:induction false} PendingResolved(lang: Language, w: World, rank: map<nat, nat>, cache: Cache,
                                           affected: seq<nat>)
    requires Resolvable(lang, w, rank)
    ensures Resolved(PendingGraph(lang, w, cache, affected))
    ensures ClosedUnder(PendingGraph(lang, w, cache, affected), PendingGraph(lang, w, cache, affected).Keys)
  {
    var g := PendingGraph(lang, w, cache, affected);
    forall s <- g
      ensures NoDuplicates(g[s]) && forall d <- g[s] :: d in g
    {
      assert NoDuplicates(IncludesOf(lang, w, s));
    }
  }

  /** The affected Sources that are still present: the roots of discovery. */
  function PresentOnly(affected: seq<nat>, w: World): (r: seq<nat>)
    ensures forall s :: s in r <==> s in affected && s in w
  {
    if affected == [] then []
    else
      assert affected == [affected[0]] + affected[1..];
      (if affected[0] in w then [affected[0]] else []) + PresentOnly(affected[1..], w)
  }

  // ----- The semantic phase -----

  /** What the cache will be: the reused interfaces and those made so far. */
  ghost function Combined(cache: Cache, affected: seq<nat>, made: Cache): Cache {
    (map s | s in cache && s !in affected :: cache[s]) + made
  }

  /** `part` is the cache without the affected Sources. */
  ghost predicate Reduced(cache: Cache, affected: seq<nat>, part: Cache) {
    && (forall s :: s in part <==> s in cache && s !in affected)
    && (forall s <- part :: part[s] == cache[s])
  }

  lemma {:induction false} ReusedEntry(lang: Language, w0: World, w1: World, objects: seq<Node>, cache: Cache,
                                       affected: seq<nat>, part: Cache, s: nat)
    requires Grounded(objects) && EntryExact(lang, w0, objects, cache, s) && s !in affected
    requires Sheltered(lang, w0, w1, cache, SetOf(affected)) && Reduced(cache, affected, part)
    ensures EntryExact(lang, w1, objects, part, s)
  {
    hide Grounded;
    assert s !in SetOf(affected);
    var list := IncludesOf(lang, w0, s);
    assert IncludesOf(lang, w1, s) == list;
    forall d <- list
      ensures d in part && part[d] == cache[d]
    {
      assert d !in SetOf(affected);
    }
    forall i: nat | i < |list|
      ensures part[list[i]] == cache[list[i]]
    {
      assert list[i] in list;
    }
  }

  /** The reused part of the cache is exact for the new world. */
  lemma {:induction false} ReusedExact(lang: Language, w0: World, w1: World, objects: seq<Node>, cache: Cache,
                                       affected: seq<nat>)
    requires CacheExact(lang, w0, objects, cache) && Sheltered(lang, w0, w1, cache, SetOf(affected))
    ensures CacheExact(lang, w1, objects, Combined(cache, affected, map[]))
  {
    hide EntryExact, Sheltered, Grounded;
    var part := Combined(cache, affected, map[]);
    assert Reduced(cache, affected, part);
    hide Combined;
    forall s <- part
      ensures EntryExact(lang, w1, objects, part, s)
    {
      assert EntryExact(lang, w0, objects, cache, s);
      ReusedEntry(lang, w0, w1, objects, cache, affected, part, s);
    }
  }

  lemma {:induction false} EntryKept(lang: Language, w: World, objects: seq<Node>, cache: Cache, node: Node, s: nat,
                                     x: nat)
    requires Grounded(objects) && Grounded(objects + [node])
    requires EntryExact(lang, w, objects, cache, x) && s !in cache
    ensures EntryExact(lang, w, objects + [node], cache[s := |objects|], x)
  {
    var longer, cache' := objects + [node], cache[s := |objects|];
    var imports := objects[cache[x]].imports;
    assert longer[cache[x]] == objects[cache[x]];
    forall i: nat | i < |imports|
      ensures UnfoldAll(longer, cache[x], |imports|)[i] == UnfoldAll(objects, cache[x], |imports|)[i]
    {
      assert imports[i] in imports;
      UnfoldStable(objects, longer, imports[i]);
    }
    assert UnfoldAll(longer, cache[x], |imports|) == UnfoldAll(objects, cache[x], |imports|);
    forall i: nat | i < |IncludesOf(lang, w, x)|
      ensures cache'[IncludesOf(lang, w, x)[i]] == cache[IncludesOf(lang, w, x)[i]]
    {
      assert IncludesOf(lang, w, x)[i] in IncludesOf(lang, w, x);
    }
  }

  /** `longer[ref]` is the interface of `s` parsed from the cached interfaces of its includes. */
  ghost predicate ParsedFrom(lang: Language, w: World, longer: seq<Node>, cache: Cache, s: nat, ref: Ref) {
    && Grounded(longer) && s in w && ref < |longer|
    && (forall d <- IncludesOf(lang, w, s) :: d in cache && d != s)
    && |longer[ref].imports| == |IncludesOf(lang, w, s)|
    && (forall i: nat :: i < |longer[ref].imports| ==> longer[ref].imports[i] == cache[IncludesOf(lang, w, s)[i]])
    && longer[ref].local == lang.parse(w[s], UnfoldAll(longer, ref, |longer[ref].imports|))
  }

  lemma {:induction false} NewEntry(lang: Language, w: World, longer: seq<Node>, cache: Cache, s: nat, ref: Ref)
    requires ParsedFrom(lang, w, longer, cache, s, ref)
    ensures Grounded(longer) && EntryExact(lang, w, longer, cache[s := ref], s)
  {
    var list, cache' := IncludesOf(lang, w, s), cache[s := ref];
    hide Grounded, IncludesOf;
    forall i: nat | i < |list|
      ensures longer[ref].imports[i] == cache'[list[i]]
    {
      assert list[i] in list;
    }
  }

  lemma {:induction false} EntryBounded(lang: Language, w: World, objects: seq<Node>, cache: Cache, x: nat)
    requires Grounded(objects) && EntryExact(lang, w, objects, cache, x)
    ensures x in cache && cache[x] < |objects|
  {
  }

  lemma {:induction false} EntriesKept(lang: Language, w: World, objects: seq<Node>, cache: Cache, s: nat, node: Node)
    requires CacheExact(lang, w, objects, cache) && s !in cache && Grounded(objects + [node])
    ensures forall x <- cache ::
              EntryExact(lang, w, objects + [node], cache[s := |objects|], x) && cache[x] < |objects|
  {
    hide EntryExact, Grounded;
    forall x <- cache
      ensures EntryExact(lang, w, objects + [node], cache[s := |objects|], x) && cache[x] < |objects|
    {
      assert EntryExact(lang, w, objects, cache, x);
      EntryKept(lang, w, objects, cache, node, s, x);
      EntryBounded(lang, w, objects, cache, x);
    }
  }

  /** One more interface, parsed from interfaces that are there already. */
  lemma {:induction false} MadeOne(lang: Language, w: World, objects: seq<Node>, cache: Cache, s: nat, node: Node)
    requires CacheExact(lang, w, objects, cache) && s !in cache
    requires ParsedFrom(lang, w, objects + [node], cache, s, |objects|)
    ensures CacheExact(lang, w, objects + [node], cache[s := |objects|])
  {
    hide EntryExact, Grounded, ParsedFrom;
    NewEntry(lang, w, objects + [node], cache, s, |objects|);
    EntriesKept(lang, w, objects, cache, s, node);
    OneMoreReference(cache, s, |objects|);
  }

  lemma {:induction false} OneMoreReference(cache: Cache, s: nat, ref: Ref)
    requires forall x <- cache :: cache[x] < ref
    requires forall a <- cache, b <- cache :: cache[a] == cache[b] ==> a == b
    ensures
      var cache' := cache[s := ref];
      forall a <- cache', b <- cache' :: cache'[a] == cache'[b] ==> a == b
  {
  }

  /** parse_and_capture takes a fresh interface where there is one, and the cached one otherwise. */
  method CollectImports(list: seq<nat>, cache: Cache, made: Cache, ghost combined: Cache) returns (refs: seq<Ref>)
    requires forall d <- list :: d in combined && (d in made || d in cache)
    requires forall d <- list :: combined[d] == if d in made then made[d] else cache[d]
    ensures |refs| == |list| && forall i: nat :: i < |refs| ==> refs[i] == combined[list[i]]
  {
    refs := [];
    for i := 0 to |list|
      invariant |refs| == i && forall j: nat :: j < i ==> refs[j] == combined[list[j]]
    {
      assert list[i] in list;
      refs := refs + [if list[i] in made then made[list[i]] else cache[list[i]]];
    }
  }

  /** Interfaces were made for exactly the parsed Sources, and nobody is parsing. */
  ghost predicate MadeParsed(cells: Cells, made: Cache) {
    && (forall s <- cells :: cells[s].claimed ==> cells[s].parsed)
    && (forall s :: s in made <==> IsParsed(cells, s))
  }

  /** The Sources of this build and what each of them waits for. */
  ghost predicate Drawn(lang: Language, w: World, cache: Cache, affected: seq<nat>, graph: Includes,
                        sources: set<nat>) {
    forall s <- sources ::
      && s in w && !Reused(cache, affected, s) && s in graph.dependencies
      && graph.dependencies[s] == Pending(lang.resolve(s, w[s]), cache, affected)
  }

  /** The state between two parses. */
  ghost predicate Progress(lang: Language, w: World, cache: Cache, affected: seq<nat>, f: Front, objects: seq<Node>,
                           made: Cache) {
    && Valid(f) && !f.failed
    && MadeParsed(f.cells, made)
    && Drawn(lang, w, cache, affected, f.graph, f.cells.Keys)
    && CacheExact(lang, w, objects, Combined(cache, affected, made))
  }

  /** Every include of a Source that is ready is there: from the cache, or made before. */
  lemma {:induction false} ImportsThere(lang: Language, w: World, rank: map<nat, nat>, cache: Cache, affected: seq<nat>,
                     f: Front, objects: seq<Node>, made: Cache)
    requires Progress(lang, w, cache, affected, f, objects, made) && Resolvable(lang, w, rank) && f.ready != []
    ensures f.ready[0] in f.cells && f.ready[0] in w && f.ready[0] !in Combined(cache, affected, made)
    ensures forall d <- IncludesOf(lang, w, f.ready[0]) ::
              && d in Combined(cache, affected, made) && d != f.ready[0]
              && (d in made || d in cache)
              && Combined(cache, affected, made)[d] == if d in made then made[d] else cache[d]
  {
    hide Valid, CacheExact;
    TakenValid(f);
    var s := f.ready[0];
    forall d <- IncludesOf(lang, w, s)
      ensures d in made || Reused(cache, affected, d)
      ensures d != s
    {
      if !Reused(cache, affected, d) {
        assert d in f.graph.dependencies[s];
        assert IsParsed(f.cells, d);
      }
    }
    forall d <- made
      ensures !Reused(cache, affected, d)
    {
      assert IsParsed(f.cells, d);
    }
  }

  lemma {:induction false} MadeParsedStep(cells: Cells, taken: Cells, cells': Cells, made: Cache, s: nat, ref: Ref)
    requires MadeParsed(cells, made) && s in cells && taken.Keys == cells.Keys && cells'.Keys == cells.Keys
    requires forall x <- cells :: x != s ==> taken[x] == cells[x]
    requires forall x <- taken ::
               cells'[x].claimed == taken[x].claimed && cells'[x].parsed == (taken[x].parsed || x == s)
    ensures MadeParsed(cells', made[s := ref])
  {
    forall x
      ensures x in made[s := ref] <==> IsParsed(cells', x)
    {
      if x in cells' && x != s {
        assert IsParsed(cells, x) == IsParsed(cells', x);
      }
    }
  }

  lemma {:induction false} ParsedStep(lang: Language, w: World, cache: Cache, affected: seq<nat>, f: Front,
                                      objects: seq<Node>, made: Cache,
                                      objects': seq<Node>, s: nat, ref: Ref)
    requires Progress(lang, w, cache, affected, f, objects, made) && f.ready != [] && s == f.ready[0]
    requires s in Taken(f).cells && s in Taken(f).graph.dependents && forall d <- Taken(f).graph.dependents[s] :: d in Taken(f).cells
    requires CacheExact(lang, w, objects', Combined(cache, affected, made)[s := ref])
    ensures Progress(lang, w, cache, affected, Finished(Taken(f), s), objects', made[s := ref])
    ensures Finished(Taken(f), s).left < f.left && Finished(Taken(f), s).cells.Keys == f.cells.Keys
  {
    hide Valid, CacheExact, Finished, Taken, OnlyReleases, Marked, MadeParsed, Drawn;
    TakenValid(f);
    TakenKeeps(f);
    FinishedValid(Taken(f), s);
    FinishedCells(Taken(f), s, Finished(Taken(f), s));
    var f' := Finished(Taken(f), s);
    assert Taken(f).cells.Keys == f.cells.Keys;
    MadeParsedStep(f.cells, Taken(f).cells, f'.cells, made, s, ref);
    OverrideOne(map x | x in cache && x !in affected :: cache[x], made, s, ref);
  }

  /** The semantic phase of one thread: ready Sources are parsed until there are none. */
  method ParseReady(lang: Language, w: World, ghost rank: map<nat, nat>, cache: Cache, affected: seq<nat>,
                    start: Front, before: seq<Node>)
    returns (objects: seq<Node>, made: Cache)
    requires Resolvable(lang, w, rank) && Progress(lang, w, cache, affected, start, before, map[])
    ensures before <= objects && made.Keys == start.cells.Keys
    ensures CacheExact(lang, w, objects, Combined(cache, affected, made))
  {
    hide Progress, Valid, CacheExact, Taken, Finished, Resolvable, Combined, EntryExact;
    var f := start;
    objects, made := before, map[];
    while f.ready != []
      invariant Progress(lang, w, cache, affected, f, objects, made)
      invariant before <= objects && f.cells.Keys == start.cells.Keys
      decreases f.left
    {
      ImportsThere(lang, w, rank, cache, affected, f, objects, made);
      var s := f.ready[0];
      ghost var combined := Combined(cache, affected, made);
      var list := lang.resolve(s, w[s]);
      var refs := CollectImports(list, cache, made, combined);
      ImportsGrounded(lang, w, cache, affected, f, objects, made, list, refs);
      var blank := objects + [Node(map[], refs)];
      var trees := UnfoldAll(blank, |objects|, |refs|);
      var node := Node(lang.parse(w[s], trees), refs);
      SameTrees(objects, refs, map[], node.local);
      ExactNow(lang, w, cache, affected, f, objects, made);
      MadeOne(lang, w, objects, combined, s, node);
      TakenFinishable(lang, w, cache, affected, f, objects, made);
      ParsedStep(lang, w, cache, affected, f, objects, made, objects + [node], s, |objects|);
      made := made[s := |objects|];
      objects := objects + [node];
      f := Finished(Taken(f), s);
    }
    EverythingParsed(lang, w, rank, cache, affected, f, objects, made);
  }

  lemma {:induction false} ExactNow(lang: Language, w: World, cache: Cache, affected: seq<nat>, f: Front,
                                    objects: seq<Node>, made: Cache)
    requires Progress(lang, w, cache, affected, f, objects, made)
    ensures CacheExact(lang, w, objects, Combined(cache, affected, made)) && Grounded(objects)
  {
    hide Valid, EntryExact;
  }

  lemma {:induction false} ImportsGrounded(lang: Language, w: World, cache: Cache, affected: seq<nat>, f: Front,
                                           objects: seq<Node>, made: Cache,
                        list: seq<nat>, refs: seq<Ref>)
    requires Progress(lang, w, cache, affected, f, objects, made)
    requires forall d <- list :: d in Combined(cache, affected, made)
    requires |refs| == |list| && forall i: nat :: i < |refs| ==> refs[i] == Combined(cache, affected, made)[list[i]]
    ensures Grounded(objects) && forall local: Local :: Grounded(objects + [Node(local, refs)])
  {
    hide Valid;
    ExactNow(lang, w, cache, affected, f, objects, made);
    hide Combined;
    forall i <- refs
      ensures i < |objects|
    {
      var k: nat :| k < |refs| && refs[k] == i;
      assert list[k] in list;
      assert EntryExact(lang, w, objects, Combined(cache, affected, made), list[k]);
    }
  }

  /** The bindings of a new interface do not change what its includes show. */
  lemma {:induction false} SameTrees(objects: seq<Node>, refs: seq<Ref>, a: Local, b: Local)
    requires Grounded(objects) && Grounded(objects + [Node(a, refs)]) && Grounded(objects + [Node(b, refs)])
    ensures UnfoldAll(objects + [Node(a, refs)], |objects|, |refs|) == UnfoldAll(objects + [Node(b, refs)], |objects|, |refs|)
  {
    var x, y := objects + [Node(a, refs)], objects + [Node(b, refs)];
    assert x[|objects|] == Node(a, refs) && y[|objects|] == Node(b, refs);
    forall i: nat | i < |refs|
      ensures UnfoldAll(x, |objects|, |refs|)[i] == UnfoldAll(y, |objects|, |refs|)[i]
    {
      assert refs[i] in refs;
      UnfoldStable(objects, x, refs[i]);
      UnfoldStable(objects, y, refs[i]);
    }
  }

  lemma {:induction false} TakenFinishable(lang: Language, w: World, cache: Cache, affected: seq<nat>, f: Front,
                                           objects: seq<Node>, made: Cache)
    requires Progress(lang, w, cache, affected, f, objects, made) && f.ready != []
    ensures f.ready[0] in f.cells
    ensures f.ready[0] in Taken(f).cells && f.ready[0] in Taken(f).graph.dependents
    ensures forall d <- Taken(f).graph.dependents[f.ready[0]] :: d in Taken(f).cells
  {
    hide Valid, CacheExact;
    TakenValid(f);
    DependentsKnown(Taken(f), f.ready[0]);
  }

  lemma {:induction false} NothingEligible(f: Front)
    requires QueueValid(f) && !f.failed && f.ready == []
    requires forall x <- f.cells :: f.cells[x].claimed ==> f.cells[x].parsed
    ensures forall x <- f.cells :: f.cells[x].remaining == 0 ==> f.cells[x].parsed
  {
    assert forall x <- f.cells :: Eligible(f.cells[x]) ==> x in f.ready;
  }

  /** With an empty queue and nobody parsing, nothing is left: includes are acyclic. */
  lemma {:induction false} AllParsed(f: Front, rank: map<nat, nat>, s: nat)
    requires Valid(f) && !f.failed && f.ready == [] && Acyclic(f.graph, rank) && s in f.cells
    requires forall x <- f.cells :: f.cells[x].claimed ==> f.cells[x].parsed
    ensures f.cells[s].parsed
  {
    hide Acyclic, Shaped, CountsRemaining, Ordered;
    NothingEligible(f);
    hide QueueValid;
    if !f.cells[s].parsed {
      var r := SomeReady(f, rank, s);
      assert false;
    }
  }

  lemma {:induction false} EverythingParsed(lang: Language, w: World, rank: map<nat, nat>, cache: Cache,
                                            affected: seq<nat>,
                                            f: Front, objects: seq<Node>, made: Cache)
    requires Resolvable(lang, w, rank) && Progress(lang, w, cache, affected, f, objects, made) && f.ready == []
    ensures made.Keys == f.cells.Keys && CacheExact(lang, w, objects, Combined(cache, affected, made))
  {
    PendingAcyclic(lang, w, rank, cache, affected, f, objects, made);
    hide CacheExact, Valid, Resolvable, Acyclic, Drawn, Combined, IsParsed;
    forall s <- f.cells
      ensures f.cells[s].parsed
    {
      AllParsed(f, rank, s);
    }
    SameDomain(f.cells, made);
  }

  lemma {:induction false} SameDomain(cells: Cells, made: Cache)
    requires MadeParsed(cells, made) && forall s <- cells :: cells[s].parsed
    ensures made.Keys == cells.Keys
  {
    assert forall s :: s in made <==> IsParsed(cells, s);
  }

  lemma {:induction false} PendingAcyclic(lang: Language, w: World, rank: map<nat, nat>, cache: Cache,
                                          affected: seq<nat>,
                       f: Front, objects: seq<Node>, made: Cache)
    requires Resolvable(lang, w, rank) && Progress(lang, w, cache, affected, f, objects, made)
    ensures Acyclic(f.graph, rank)
  {
    hide CacheExact, Combined, CountsRemaining, Ordered, QueueValid, MadeParsed, Linked;
    forall s <- f.graph.dependencies, d <- f.graph.dependencies[s]
      ensures s in rank && d in rank && rank[d] < rank[s]
    {
      assert s in f.cells;
      assert d in IncludesOf(lang, w, s);
    }
  }

  // ----- The whole build -----

  /** Writing the candidate interfaces into the cache, in ascending order of the
  Sources; a removed Source gives up its interface. */
  method ReplaceInterfaces(cache: Cache, affected: seq<nat>, made: Cache, bound: nat) returns (r: Cache)
    requires forall s <- made :: s < bound
    requires forall s <- affected :: s < bound
    ensures forall s :: s in r <==> s in made || (s in cache && s !in affected)
    ensures forall s <- r :: r[s] == if s in made then made[s] else cache[s]
  {
    r := cache;
    for s := 0 to bound
      invariant forall x: nat :: x in r <==> if x < s && (x in made || x in affected) then x in made else x in cache
      invariant forall x <- r :: r[x] == if x < s && x in made then made[x] else cache[x]
    {
      if s in made {
        r := r[s := made[s]];
      } else if s in affected {
        r := r - {s};
      }
    }
  }

  /** Where discovery starts: the committed Sources, the changes and their dependents. */
  ghost predicate Start(cache: Cache, changes: seq<nat>, dependents: map<nat, seq<nat>>, s: nat) {
    s in cache || exists c <- changes :: c in dependents && (s == c || s in dependents[c])
  }

  /** `path` follows includes of present Sources from a start to `s`. */
  ghost predicate IncludePath(lang: Language, w: World, cache: Cache, changes: seq<nat>,
                              dependents: map<nat, seq<nat>>, path: seq<nat>, s: nat) {
    && path != [] && path[|path| - 1] == s && Start(cache, changes, dependents, path[0])
    && (forall i :: 0 <= i < |path| ==> path[i] in w)
    && (forall i :: 0 <= i < |path| - 1 ==> path[i + 1] in IncludesOf(lang, w, path[i]))
  }

  ghost predicate Reached(lang: Language, w: World, cache: Cache, changes: seq<nat>, dependents: map<nat, seq<nat>>,
                          s: nat) {
    exists path :: IncludePath(lang, w, cache, changes, dependents, path, s)
  }

  lemma ReachedStart(lang: Language, w: World, cache: Cache, changes: seq<nat>, dependents: map<nat, seq<nat>>, s: nat)
    requires Start(cache, changes, dependents, s) && s in w
    ensures Reached(lang, w, cache, changes, dependents, s)
  {
    assert IncludePath(lang, w, cache, changes, dependents, [s], s);
  }

  lemma ReachedNext(lang: Language, w: World, cache: Cache, changes: seq<nat>, dependents: map<nat, seq<nat>>, s: nat,
                    d: nat)
    requires Reached(lang, w, cache, changes, dependents, s) && s in w && d in IncludesOf(lang, w, s) && d in w
    ensures Reached(lang, w, cache, changes, dependents, d)
  {
    var path :| IncludePath(lang, w, cache, changes, dependents, path, s);
    assert IncludePath(lang, w, cache, changes, dependents, path + [d], d);
  }

  /** What a build may discover: what an include path leads to and the cache does not answer. */
  ghost function Discoverable(lang: Language, w: World, cache: Cache, changes: seq<nat>,
                              dependents: map<nat, seq<nat>>, affected: seq<nat>): set<nat>
  {
    set s | s in w && !Reused(cache, affected, s) && Reached(lang, w, cache, changes, dependents, s)
  }

  lemma {:induction false} DiscoverableClosed(lang: Language, w: World, rank: map<nat, nat>, cache: Cache,
                                           changes: seq<nat>, dependents: map<nat, seq<nat>>, affected: seq<nat>)
    requires Resolvable(lang, w, rank) && forall c <- changes :: c in dependents
    requires forall x :: x in affected <==> exists c :: c in changes && (x == c || x in dependents[c])
    ensures ClosedUnder(PendingGraph(lang, w, cache, affected), Discoverable(lang, w, cache, changes, dependents, affected))
    ensures forall s <- affected :: s in w ==> s in Discoverable(lang, w, cache, changes, dependents, affected)
    ensures forall s <- cache :: s in w ==> Reached(lang, w, cache, changes, dependents, s)
  {
    hide Reached;
    var g := PendingGraph(lang, w, cache, affected);
    forall s <- Discoverable(lang, w, cache, changes, dependents, affected), d | s in g && d in g[s]
      ensures d in Discoverable(lang, w, cache, changes, dependents, affected)
    {
      assert d in IncludesOf(lang, w, s);
      ReachedNext(lang, w, cache, changes, dependents, s, d);
    }
    forall s <- w | Start(cache, changes, dependents, s)
      ensures Reached(lang, w, cache, changes, dependents, s)
    {
      ReachedStart(lang, w, cache, changes, dependents, s);
    }
    forall s <- affected
      ensures Start(cache, changes, dependents, s)
    {
      var c :| c in changes && (s == c || s in dependents[c]);
    }
    assert forall s <- cache :: Start(cache, changes, dependents, s);
  }

  lemma EntryIncludes(lang: Language, w: World, objects: seq<Node>, cache: Cache, s: nat)
    requires CacheExact(lang, w, objects, cache) && s in cache
    ensures s in w && forall d <- IncludesOf(lang, w, s) :: d in cache
  {
    assert EntryExact(lang, w, objects, cache, s);
  }

  /** The new cache holds everything an include path leads to. */
  lemma {:induction false} ReachedIsCached(lang: Language, w: World, objects: seq<Node>, cache: Cache,
                                           changes: seq<nat>, dependents: map<nat, seq<nat>>, cache': Cache,
                                           path: seq<nat>, s: nat)
    requires CacheExact(lang, w, objects, cache') && IncludePath(lang, w, cache, changes, dependents, path, s)
    requires forall x <- w :: Start(cache, changes, dependents, x) ==> x in cache'
    ensures s in cache'
    decreases |path|
  {
    hide Start, CacheExact, IncludesOf;
    if |path| > 1 {
      var n := |path| - 1;
      ReachedIsCached(lang, w, objects, cache, changes, dependents, cache', path[..n], path[n - 1]);
      EntryIncludes(lang, w, objects, cache', path[n - 1]);
      assert path[n - 1 + 1] in IncludesOf(lang, w, path[n - 1]);
    }
  }

  lemma {:induction false} CachedIsReached(lang: Language, w: World, objects: seq<Node>, cache: Cache,
                                           changes: seq<nat>, dependents: map<nat, seq<nat>>, affected: seq<nat>,
                                           made: Cache, cache': Cache)
    requires CacheExact(lang, w, objects, cache') && forall c <- changes :: c in dependents
    requires forall x :: x in affected <==> exists c :: c in changes && (x == c || x in dependents[c])
    requires forall s :: s in cache' <==> s in made || (s in cache && s !in affected)
    requires made.Keys <= Discoverable(lang, w, cache, changes, dependents, affected)
    requires forall s <- cache :: s in w ==> Reached(lang, w, cache, changes, dependents, s)
    requires forall s <- affected :: s in w ==> s in made
    ensures forall s :: s in cache' <==> s in w && Reached(lang, w, cache, changes, dependents, s)
  {
    hide Reached, IncludePath, CacheExact;
    forall s <- cache'
      ensures s in w
    {
      EntryIncludes(lang, w, objects, cache', s);
    }
    forall s <- cache'
      ensures Reached(lang, w, cache, changes, dependents, s)
    {
      assert s in made ==> s in made.Keys;
    }
    forall s <- w | Reached(lang, w, cache, changes, dependents, s)
      ensures s in cache'
    {
      ReachedPath(lang, w, cache, changes, dependents, s);
      var path :| IncludePath(lang, w, cache, changes, dependents, path, s);
      ReachedIsCached(lang, w, objects, cache, changes, dependents, cache', path, s);
    }
  }

  lemma ReachedPath(lang: Language, w: World, cache: Cache, changes: seq<nat>, dependents: map<nat, seq<nat>>, s: nat)
    requires Reached(lang, w, cache, changes, dependents, s)
    ensures exists path :: IncludePath(lang, w, cache, changes, dependents, path, s)
  {
  }

  /** rebuild_incremental: after a successful commit the cache is exact for the
  new world; only affected or new Sources were parsed; a failed commit leaves the cache. */
  method Build(lang: Language, ghost w0: World, w1: World, ghost rank: map<nat, nat>, before: seq<Node>, cache: Cache,
               changes: seq<nat>, dependents: map<nat, seq<nat>>, bound: nat, committed: bool)
    returns (objects: seq<Node>, cache': Cache, ghost parsed: set<nat>)
    requires CacheExact(lang, w0, before, cache) && Resolvable(lang, w1, rank)
    requires (forall c <- changes :: c in dependents) && DependentsClosed(lang, w0, cache, dependents)
    requires OnlyChanged(cache, w0, w1, changes)
    requires forall s <- w1 :: s < bound
    requires forall c <- dependents :: c < bound && forall s <- dependents[c] :: s < bound
    ensures before <= objects
    ensures !committed ==> cache' == cache
    ensures committed ==> CacheExact(lang, w1, objects, cache')
    ensures forall s <- parsed :: s in w1 && (s in cache ==> exists c :: c in changes && (s == c || s in dependents[c]))
    ensures committed ==> forall s <- cache' ::
                            s in w1 && cache'[s] < |objects| && Unfold(objects, cache'[s]) == FullTree(lang, w1, rank, s)
    ensures committed ==> forall s :: s in cache' <==> s in w1 && Reached(lang, w1, cache, changes, dependents, s)
    ensures committed && (forall s <- w1 :: s in cache || s in changes) ==> cache'.Keys == w1.Keys
    ensures committed ==> forall s <- cache' :: s in parsed || (s in cache && cache'[s] == cache[s])
  {
    hide CacheExact, EntryExact, Resolvable, Sheltered, DependentsClosed, Resolved, FullTree, Grounded, ClosedUnder, Valid, Progress, Combined, OnlyChanged, PendingGraph, Pending, PresentOnly, Linked, NoDuplicates, IncludesOf, Reached, Discoverable, Start;
    var affected := MarkAffected(changes, dependents);
    AffectedShelters(lang, w0, w1, cache, changes, dependents, affected);
    var roots := PresentOnly(affected, w1);
    var graph := PendingGraph(lang, w1, cache, affected);
    PendingResolved(lang, w1, rank, cache, affected);
    DiscoverableClosed(lang, w1, rank, cache, changes, dependents, affected);
    var front := Discover(graph, roots, Discoverable(lang, w1, cache, changes, dependents, affected));
    ReusedExact(lang, w0, w1, before, cache, affected);
    StartsProgress(lang, w1, cache, affected, front, before, graph);
    var made;
    objects, made := ParseReady(lang, w1, rank, cache, affected, front, before);
    parsed := made.Keys;
    assert forall s <- made :: s in front.cells.Keys;
    if !committed {
      cache' := cache;
      return;
    }
    cache' := ReplaceInterfaces(cache, affected, made, bound);
    assert forall s <- affected :: s in w1 ==> s in roots && s in made;
    BuildComplete(lang, w1, rank, objects, cache, changes, dependents, affected, made, cache');
  }

  /** What the rewritten cache is worth. */
  lemma {:induction false} BuildComplete(lang: Language, w: World, rank: map<nat, nat>, objects: seq<Node>, cache: Cache,
                                         changes: seq<nat>, dependents: map<nat, seq<nat>>, affected: seq<nat>,
                                         made: Cache, cache': Cache)
    requires Resolvable(lang, w, rank) && CacheExact(lang, w, objects, Combined(cache, affected, made))
    requires forall c <- changes :: c in dependents
    requires forall x :: x in affected <==> exists c :: c in changes && (x == c || x in dependents[c])
    requires forall s :: s in cache' <==> s in made || (s in cache && s !in affected)
    requires forall s <- cache' :: cache'[s] == if s in made then made[s] else cache[s]
    requires made.Keys <= Discoverable(lang, w, cache, changes, dependents, affected)
    requires forall s <- affected :: s in w ==> s in made
    ensures CacheExact(lang, w, objects, cache')
    ensures forall s <- cache' ::
              s in w && cache'[s] < |objects| && Unfold(objects, cache'[s]) == FullTree(lang, w, rank, s)
    ensures forall s :: s in cache' <==> s in w && Reached(lang, w, cache, changes, dependents, s)
    ensures (forall s <- w :: s in cache || s in changes) ==> cache'.Keys == w.Keys
  {
    CombinedIs(cache, affected, made, cache');
    AllFull(lang, w, rank, objects, cache');
    DiscoverableClosed(lang, w, rank, cache, changes, dependents, affected);
    hide CacheExact, Resolvable, Reached, Discoverable, Unfold, FullTree, Combined, ClosedUnder;
    CachedIsReached(lang, w, objects, cache, changes, dependents, affected, made, cache');
    AllReached(lang, w, cache, changes, dependents);
  }

  lemma AllReached(lang: Language, w: World, cache: Cache, changes: seq<nat>, dependents: map<nat, seq<nat>>)
    requires forall c <- changes :: c in dependents
    ensures forall s <- w :: s in cache || s in changes ==> Reached(lang, w, cache, changes, dependents, s)
  {
    hide Reached;
    forall s <- w | s in cache || s in changes
      ensures Reached(lang, w, cache, changes, dependents, s)
    {
      ReachedStart(lang, w, cache, changes, dependents, s);
    }
  }

  lemma {:induction false} AllFull(lang: Language, w: World, rank: map<nat, nat>, objects: seq<Node>, cache: Cache)
    requires Resolvable(lang, w, rank) && CacheExact(lang, w, objects, cache)
    ensures forall s <- cache :: s in w && cache[s] < |objects| && Unfold(objects, cache[s]) == FullTree(lang, w, rank, s)
  {
    forall s <- cache
      ensures s in w && cache[s] < |objects| && Unfold(objects, cache[s]) == FullTree(lang, w, rank, s)
    {
      CachedIsFull(lang, w, rank, objects, cache, s);
    }
  }

  lemma {:induction false} CombinedIs(cache: Cache, affected: seq<nat>, made: Cache, r: Cache)
    requires forall s :: s in r <==> s in made || (s in cache && s !in affected)
    requires forall s <- r :: r[s] == if s in made then made[s] else cache[s]
    ensures r == Combined(cache, affected, made)
  {
  }

  lemma {:induction false} StartsProgress(lang: Language, w: World, cache: Cache, affected: seq<nat>, front: Front,
                                          objects: seq<Node>, graph: map<nat, seq<nat>>)
    requires Valid(front) && !front.failed && graph == PendingGraph(lang, w, cache, affected)
    requires forall s <- front.cells :: !front.cells[s].claimed && !front.cells[s].parsed
    requires forall s <- front.cells :: s in graph && front.graph.dependencies[s] == graph[s]
    requires CacheExact(lang, w, objects, Combined(cache, affected, map[]))
    ensures Progress(lang, w, cache, affected, front, objects, map[])
  {
    hide CacheExact, Combined, CountsRemaining, Ordered, QueueValid, Linked, Pending, Reused;
  }
}
