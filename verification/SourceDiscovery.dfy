/** The discovery phase of a full frontend build.

Sources are discovered in waves, starting from the roots. Discovering a Source
records its distinct direct dependencies, counts them in `remaining`, enters the
Source with each dependency as a dependent, and queues dependencies that nobody
claimed yet. What include resolution yields is given by `includes`.
 */
module SourceDiscovery {
  import opened Collections
  import opened SemanticSchedule

  /** Frontend state during discovery; `pending` is the discovery queue. */
  datatype Found = Found(
    dependencies: map<nat, seq<nat>>, dependents: map<nat, seq<nat>>, cells: Cells,
    pending: seq<nat>, ready: seq<nat>)

  const FRESH := Cell(0, false, false, false)

  /** Every include resolves to a known Source, and each is listed once. */
  ghost predicate Resolved(includes: map<nat, seq<nat>>) {
    forall s <- includes :: NoDuplicates(includes[s]) && forall d <- includes[s] :: d in includes
  }

  ghost predicate ClosedUnder(includes: map<nat, seq<nat>>, sources: set<nat>) {
    forall s <- sources :: s in includes && forall d <- includes[s] :: d in sources
  }

  /** A new Source state, or the existing one. */
  function Ensured(f: Found, s: nat): Found {
    if s in f.cells then f
    else f.(dependencies := f.dependencies[s := []], dependents := f.dependents[s := []],
            cells := f.cells[s := FRESH], pending := f.pending + [s])
  }

  ghost predicate SameKeys(f: Found) {
    f.cells.Keys == f.dependencies.Keys && f.cells.Keys == f.dependents.Keys
  }

  /** `done` are discovered, `wave` and the queue are claimed, nothing else is known. */
  ghost predicate Tracked(f: Found, includes: map<nat, seq<nat>>, done: set<nat>, wave: seq<nat>) {
    && SameKeys(f)
    && NoDuplicates(wave + f.pending)
    && (forall s :: s in f.cells <==> s in done || s in wave + f.pending)
    && (forall s <- wave + f.pending :: s !in done)
    && (forall s <- f.cells :: s in includes)
  }

  /** The edges recorded so far: those of `done`, and the first `n` of `current`. */
  ghost predicate Edge(includes: map<nat, seq<nat>>, done: set<nat>, current: nat, n: nat, s: nat, d: nat) {
    && s in includes
    && ((s in done && d in includes[s])
        || (s == current && s !in done && n <= |includes[s]| && d in includes[s][..n]))
  }

  /** `dependents` holds exactly the edges recorded so far, inverted. */
  ghost predicate Inverted(dependents: map<nat, seq<nat>>, includes: map<nat, seq<nat>>, done: set<nat>, current: nat,
                           n: nat) {
    && (forall d <- dependents :: NoDuplicates(dependents[d]))
    && (forall s: nat, d: nat :: Edge(includes, done, current, n, s, d) <==> s in ListOf(dependents, d))
  }

  function ListOf(dependents: map<nat, seq<nat>>, d: nat): seq<nat> {
    if d in dependents then dependents[d] else []
  }

  ghost predicate Counted(f: Found, includes: map<nat, seq<nat>>, done: set<nat>, current: nat, n: nat)
    requires SameKeys(f)
  {
    && (forall s <- f.dependencies :: f.dependencies[s] == if s in done && s in includes then includes[s] else [])
    && (forall s <- f.cells :: !f.cells[s].claimed && !f.cells[s].parsed)
    && (forall s <- f.cells :: f.cells[s].remaining
          == if s in done && s in includes then |includes[s]| else if s == current then n else 0)
  }

  ghost predicate Recorded(f: Found, includes: map<nat, seq<nat>>, done: set<nat>, current: nat, n: nat)
    requires SameKeys(f)
  {
    Inverted(f.dependents, includes, done, current, n) && Counted(f, includes, done, current, n)
  }

  ghost predicate Queued(f: Found, includes: map<nat, seq<nat>>, done: set<nat>) {
    && NoDuplicates(f.ready)
    && (forall s :: s in f.ready <==> s in done && s in includes && includes[s] == [])
    && (forall s <- f.cells :: f.cells[s].queued <==> s in f.ready)
  }

  /** The end of discover: the dependencies are stored and a Source without any is queued. */
  function Completed(f: Found, s: nat, list: seq<nat>): Found
    requires s in f.cells
  {
    var cell := f.cells[s];
    if cell.remaining == 0 && !cell.claimed && !cell.queued && !cell.parsed
    then f.(dependencies := f.dependencies[s := list], cells := f.cells[s := cell.(queued := true)], ready := f.ready + [s])
    else f.(dependencies := f.dependencies[s := list])
  }

  /** `s` counts one dependency more, and `d` one dependent more. */
  function Bumped(g: Found, s: nat, d: nat): Found
    requires s in g.cells && d in g.dependents
  {
    g.(cells := g.cells[s := g.cells[s].(remaining := g.cells[s].remaining + 1)],
       dependents := g.dependents[d := g.dependents[d] + [s]])
  }

  /** One direct dependency of `s`. */
  function Linked1(f: Found, s: nat, d: nat): Found
    requires s in f.cells && SameKeys(Ensured(f, d))
  {
    Bumped(Ensured(f, d), s, d)
  }

  lemma WaveFacts(f: Found, includes: map<nat, seq<nat>>, done: set<nat>, wave: seq<nat>, s: nat)
    requires Tracked(f, includes, done, wave) && s in wave
    ensures s in f.cells && s !in done && s in includes && SameKeys(f)
    ensures forall d :: d !in f.cells ==> d !in done
  {
    assert s in wave + f.pending;
  }

  lemma EdgeStep(includes: map<nat, seq<nat>>, done: set<nat>, s: nat, n: nat)
    requires s in includes && s !in done && n < |includes[s]| && NoDuplicates(includes[s])
    ensures forall x: nat, y: nat :: Edge(includes, done, s, n + 1, x, y)
                                <==> Edge(includes, done, s, n, x, y) || (x == s && y == includes[s][n])
    ensures !Edge(includes, done, s, n, s, includes[s][n])
  {
    TakeNext(includes[s], n);
    DistinctNext(includes[s], n);
    forall x: nat, y: nat
      ensures Edge(includes, done, s, n + 1, x, y) <==> Edge(includes, done, s, n, x, y) || (x == s && y == includes[s][n])
    {
      assert y in includes[s][..n + 1] <==> y in includes[s][..n] || y == includes[s][n];
    }
  }

  lemma LinkStep(f: Found, includes: map<nat, seq<nat>>, done: set<nat>, wave: seq<nat>, s: nat, n: nat)
    requires Resolved(includes) && Tracked(f, includes, done, wave)
    requires s in wave && s in includes && n < |includes[s]|
    requires Recorded(f, includes, done, s, n) && Queued(f, includes, done)
    ensures SameKeys(Ensured(f, includes[s][n])) && s in f.cells
    ensures var f' := Linked1(f, s, includes[s][n]);
            && Tracked(f', includes, done, wave)
            && SameKeys(f') && Recorded(f', includes, done, s, n + 1)
            && Queued(f', includes, done)
            && f'.cells.Keys == f.cells.Keys + {includes[s][n]}
  {
    var d := includes[s][n];
    assert d in includes[s];
    WaveFacts(f, includes, done, wave, s);
    EnsureTracked(f, includes, done, wave, d);
    EdgeStep(includes, done, s, n);
    hide Edge, NoDuplicates, Tracked, Resolved, Recorded, Queued, Linked1;
    RecordedParts(f, includes, done, s, n);
    InvertStep(f, includes, done, s, n, d);
    CountStep(f, includes, done, s, n, d);
    QueueStep(f, includes, done, s, d);
  }

  lemma RecordedParts(f: Found, includes: map<nat, seq<nat>>, done: set<nat>, current: nat, n: nat)
    requires SameKeys(f)
    ensures Recorded(f, includes, done, current, n)
       <==> Inverted(f.dependents, includes, done, current, n) && Counted(f, includes, done, current, n)
  {
  }

  lemma InvertStep(f: Found, includes: map<nat, seq<nat>>, done: set<nat>, s: nat, n: nat, d: nat)
    requires SameKeys(f) && SameKeys(Ensured(f, d)) && s in f.cells
    requires Inverted(f.dependents, includes, done, s, n)
    requires forall x: nat, y: nat ::
               Edge(includes, done, s, n + 1, x, y) <==> Edge(includes, done, s, n, x, y) || (x == s && y == d)
    requires !Edge(includes, done, s, n, s, d)
    ensures Inverted(Linked1(f, s, d).dependents, includes, done, s, n + 1)
  {
    hide Edge;
    var before, after := f.dependents, Linked1(f, s, d).dependents;
    assert ListOf(after, d) == ListOf(before, d) + [s];
    assert s !in ListOf(before, d);
    forall y: nat | y != d
      ensures ListOf(after, y) == ListOf(before, y)
    {
    }
  }

  lemma CountEnsured(f: Found, includes: map<nat, seq<nat>>, done: set<nat>, s: nat, n: nat, d: nat)
    requires SameKeys(f) && SameKeys(Ensured(f, d)) && s in f.cells && (d !in f.cells ==> d !in done)
    requires Counted(f, includes, done, s, n)
    ensures Counted(Ensured(f, d), includes, done, s, n)
    ensures Ensured(f, d).cells.Keys == f.cells.Keys + {d}
  {
  }

  lemma CountStep(f: Found, includes: map<nat, seq<nat>>, done: set<nat>, s: nat, n: nat, d: nat)
    requires SameKeys(f) && SameKeys(Ensured(f, d)) && s in f.cells && s !in done && (d !in f.cells ==> d !in done)
    requires Counted(f, includes, done, s, n)
    ensures SameKeys(Linked1(f, s, d)) && Counted(Linked1(f, s, d), includes, done, s, n + 1)
    ensures Linked1(f, s, d).cells.Keys == f.cells.Keys + {d}
  {
    CountEnsured(f, includes, done, s, n, d);
    EnsuredHas(f, s, d);
    var g := Ensured(f, d);
    hide Ensured, Counted;
    CountLinked(g, includes, done, s, n, d);
    assert Linked1(f, s, d) == Bumped(g, s, d);
  }

  lemma EnsuredHas(f: Found, s: nat, d: nat)
    requires s in f.cells
    ensures s in Ensured(f, d).cells && d in Ensured(f, d).cells
  {
  }

  lemma CountLinked(g: Found, includes: map<nat, seq<nat>>, done: set<nat>, s: nat, n: nat, d: nat)
    requires SameKeys(g) && s in g.cells && d in g.cells && s !in done
    requires Counted(g, includes, done, s, n)
    ensures SameKeys(Bumped(g, s, d)) && Counted(Bumped(g, s, d), includes, done, s, n + 1)
    ensures Bumped(g, s, d).cells.Keys == g.cells.Keys
  {
    var f' := Bumped(g, s, d);
    assert f'.cells.Keys == g.cells.Keys && f'.dependents.Keys == g.dependents.Keys;
  }

  lemma QueueStep(f: Found, includes: map<nat, seq<nat>>, done: set<nat>, s: nat, d: nat)
    requires SameKeys(f) && SameKeys(Ensured(f, d)) && s in f.cells && (d !in f.cells ==> d !in done)
    requires Queued(f, includes, done)
    ensures Queued(Linked1(f, s, d), includes, done)
  {
    hide NoDuplicates;
  }

  lemma EnsureTracked(f: Found, includes: map<nat, seq<nat>>, done: set<nat>, wave: seq<nat>, d: nat)
    requires Tracked(f, includes, done, wave) && d in includes
    ensures SameKeys(Ensured(f, d))
    ensures forall s <- f.cells :: s in Ensured(f, d).cells
    ensures forall s <- wave :: s in f.cells && Tracked(Linked1(f, s, d), includes, done, wave)
  {
    forall s <- wave
      ensures s in wave + f.pending
    {
    }
    if d !in f.cells {
      assert wave + (f.pending + [d]) == (wave + f.pending) + [d];
    }
  }

  lemma CompletedInverts(includes: map<nat, seq<nat>>, done: set<nat>, s: nat)
    requires s in includes && s !in done
    ensures forall x: nat, y: nat :: Edge(includes, done + {s}, s, 0, x, y) <==> Edge(includes, done, s, |includes[s]|, x, y)
  {
    TakeAll(includes[s]);
  }

  lemma CompleteTracked(f: Found, includes: map<nat, seq<nat>>, done: set<nat>, wave: seq<nat>, s: nat)
    requires Tracked(f, includes, done, wave) && wave != [] && wave[0] == s && s in f.cells
    ensures Tracked(Completed(f, s, includes[s]), includes, done + {s}, wave[1..])
    ensures Completed(f, s, includes[s]).cells.Keys == f.cells.Keys
  {
    assert wave + f.pending == [s] + (wave[1..] + f.pending);
    DistinctTail(wave + f.pending, s, wave[1..] + f.pending);
    assert Completed(f, s, includes[s]).pending == f.pending;
  }

  lemma CompleteCounted(f: Found, includes: map<nat, seq<nat>>, done: set<nat>, s: nat)
    requires SameKeys(f) && s in f.cells && s !in done && s in includes
    requires Counted(f, includes, done, s, |includes[s]|)
    ensures SameKeys(Completed(f, s, includes[s]))
    ensures Counted(Completed(f, s, includes[s]), includes, done + {s}, s, 0)
  {
  }

  lemma CompleteQueued(f: Found, includes: map<nat, seq<nat>>, done: set<nat>, s: nat)
    requires SameKeys(f) && s in f.cells && s !in done && s in includes
    requires Counted(f, includes, done, s, |includes[s]|) && Queued(f, includes, done)
    ensures Queued(Completed(f, s, includes[s]), includes, done + {s})
  {
    assert s !in f.ready && !f.cells[s].queued && f.cells[s].remaining == |includes[s]|;
  }

  lemma CompleteStep(f: Found, includes: map<nat, seq<nat>>, done: set<nat>, wave: seq<nat>, s: nat)
    requires Tracked(f, includes, done, wave) && wave != [] && wave[0] == s && s in includes
    requires Recorded(f, includes, done, s, |includes[s]|) && Queued(f, includes, done)
    ensures s in f.cells
    ensures var f' := Completed(f, s, includes[s]);
            && Tracked(f', includes, done + {s}, wave[1..])
            && SameKeys(f') && Recorded(f', includes, done + {s}, s, 0) && Queued(f', includes, done + {s})
            && f'.cells.Keys == f.cells.Keys
  {
    WaveFacts(f, includes, done, wave, s);
    CompleteTracked(f, includes, done, wave, s);
    CompletedInverts(includes, done, s);
    hide Edge, Tracked, Counted, Queued;
    assert Completed(f, s, includes[s]).dependents == f.dependents;
    CompleteCounted(f, includes, done, s);
    CompleteQueued(f, includes, done, s);
  }

  /** discover: the loop over the direct dependencies of `s`, then the ready check. */
  method DiscoverOne(start: Found, includes: map<nat, seq<nat>>, s: nat, ghost done: set<nat>, ghost wave: seq<nat>)
    returns (f: Found)
    requires Resolved(includes) && Tracked(start, includes, done, wave) && wave != [] && wave[0] == s
    requires SameKeys(start) && Recorded(start, includes, done, s, 0) && Queued(start, includes, done)
    ensures s in includes && Tracked(f, includes, done + {s}, wave[1..]) && SameKeys(f)
    ensures Recorded(f, includes, done + {s}, s, 0) && Queued(f, includes, done + {s})
    ensures f.cells.Keys == start.cells.Keys + SetOf(includes[s])
  {
    hide Tracked, Recorded, Queued, Linked1, NoDuplicates, Edge, SameKeys, Ensured, Resolved;
    f := start;
    assert s in wave;
    WaveFacts(f, includes, done, wave, s);
    var list := includes[s];
    for n := 0 to |list|
      invariant Tracked(f, includes, done, wave) && SameKeys(f)
      invariant Recorded(f, includes, done, s, n) && Queued(f, includes, done)
      invariant f.cells.Keys == start.cells.Keys + SetOf(list[..n])
    {
      LinkStep(f, includes, done, wave, s, n);
      TakeNext(list, n);
      f := Linked1(f, s, list[n]);
    }
    TakeAll(list);
    CompleteStep(f, includes, done, wave, s);
    f := Completed(f, s, list);
  }

  // ----- The phase -----

  /** One wave: the queue is drained first, then every Source in it is discovered. */
  method DiscoverWave(start: Found, includes: map<nat, seq<nat>>, ghost done: set<nat>, ghost bound: set<nat>)
    returns (f: Found, ghost done': set<nat>)
    requires Resolved(includes) && SameKeys(start) && Tracked(start, includes, done, []) && start.pending != []
    requires Recorded(start, includes, done, 0, 0) && Queued(start, includes, done)
    requires start.cells.Keys <= bound && ClosedUnder(includes, bound)
    ensures SameKeys(f) && Tracked(f, includes, done', []) && Recorded(f, includes, done', 0, 0) && Queued(f, includes, done')
    ensures f.cells.Keys <= bound && start.cells.Keys <= f.cells.Keys
    ensures done < done'
  {
    hide Recorded, Queued, NoDuplicates, Resolved, ClosedUnder, SameKeys, SetOf;
    var wave := start.pending;
    f := start.(pending := []);
    done' := done;
    assert [] + start.pending == wave && wave + f.pending == wave;
    DrainedRecords(start, f, includes, done);
    hide Tracked;
    for i := 0 to |wave|
      invariant SameKeys(f) && Tracked(f, includes, done', wave[i..])
      invariant Recorded(f, includes, done', 0, 0) && Queued(f, includes, done')
      invariant f.cells.Keys <= bound && start.cells.Keys <= f.cells.Keys
      invariant done <= done' && (i > 0 ==> done < done')
    {
      var s := wave[i];
      assert wave[i..][0] == s;
      WaveFacts(f, includes, done', wave[i..], s);
      NothingPartial(f, includes, done', 0, s);
      IncludesBounded(includes, bound, s);
      f := DiscoverOne(f, includes, s, done', wave[i..]);
      assert wave[i..][1..] == wave[i + 1..];
      done' := done' + {s};
      NothingPartial(f, includes, done', s, 0);
    }
    assert wave[|wave|..] == [];
  }

  lemma IncludesBounded(includes: map<nat, seq<nat>>, bound: set<nat>, s: nat)
    requires ClosedUnder(includes, bound) && s in bound && s in includes
    ensures SetOf(includes[s]) <= bound
  {
  }

  lemma DrainedRecords(start: Found, f: Found, includes: map<nat, seq<nat>>, done: set<nat>)
    requires f == start.(pending := []) && SameKeys(start)
    requires Recorded(start, includes, done, 0, 0) && Queued(start, includes, done)
    ensures SameKeys(f) && Recorded(f, includes, done, 0, 0) && Queued(f, includes, done)
  {
  }

  /** With nothing recorded of it yet, it does not matter which Source is the current one. */
  lemma NothingPartial(f: Found, includes: map<nat, seq<nat>>, done: set<nat>, a: nat, b: nat)
    requires SameKeys(f) && Recorded(f, includes, done, a, 0)
    ensures Recorded(f, includes, done, b, 0)
  {
    forall s: nat, d: nat
      ensures Edge(includes, done, a, 0, s, d) <==> Edge(includes, done, b, 0, s, d)
    {
    }
  }

  /** Discovery from the roots. It claims a set of Sources that contains the
  roots and is closed under includes, and `bound` says it is the smallest one.
  The frontend state it leaves satisfies the start of the semantic phase. */
  method Discover(includes: map<nat, seq<nat>>, roots: seq<nat>, ghost bound: set<nat>) returns (front: Front)
    requires Resolved(includes) && forall r <- roots :: r in includes
    requires ClosedUnder(includes, bound) && forall r <- roots :: r in bound
    ensures Valid(front) && !front.failed
    ensures forall s <- front.cells :: !front.cells[s].claimed && !front.cells[s].parsed
    ensures forall r <- roots :: r in front.cells
    ensures ClosedUnder(includes, front.cells.Keys) && front.cells.Keys <= bound
    ensures forall s <- front.cells :: s in includes && front.graph.dependencies[s] == includes[s]
  {
    hide Tracked, Recorded, Queued, NoDuplicates;
    var f := Found(map[], map[], map[], [], []);
    ghost var done: set<nat> := {};
    NothingFound(includes);
    for i := 0 to |roots|
      invariant SameKeys(f) && Tracked(f, includes, {}, []) && Recorded(f, includes, {}, 0, 0) && Queued(f, includes, {})
      invariant f.cells.Keys <= bound && forall r <- roots[..i] :: r in f.cells
    {
      TakeNext(roots, i);
      assert roots[i] in roots;
      RootEnsured(f, includes, roots[i]);
      f := Ensured(f, roots[i]);
    }
    TakeAll(roots);
    while f.pending != []
      invariant SameKeys(f) && Tracked(f, includes, done, []) && Recorded(f, includes, done, 0, 0) && Queued(f, includes, done)
      invariant f.cells.Keys <= bound && forall r <- roots :: r in f.cells
      decreases includes.Keys - done
    {
      ghost var before := done;
      f, done := DiscoverWave(f, includes, done, bound);
      DoneKnown(f, includes, done);
      assert includes.Keys - done < includes.Keys - before;
    }
    var left := |f.cells|;
    front := Front(Includes(f.dependencies, f.dependents), f.cells, f.ready, left, false);
    DiscoveredValid(f, includes, done, front);
  }

  lemma NothingFound(includes: map<nat, seq<nat>>)
    ensures var f := Found(map[], map[], map[], [], []);
            SameKeys(f) && Tracked(f, includes, {}, []) && Recorded(f, includes, {}, 0, 0) && Queued(f, includes, {})
  {
  }

  lemma RootEnsured(f: Found, includes: map<nat, seq<nat>>, r: nat)
    requires SameKeys(f) && Tracked(f, includes, {}, []) && Recorded(f, includes, {}, 0, 0) && Queued(f, includes, {})
    requires r in includes
    ensures SameKeys(Ensured(f, r)) && Tracked(Ensured(f, r), includes, {}, [])
    ensures Recorded(Ensured(f, r), includes, {}, 0, 0) && Queued(Ensured(f, r), includes, {})
    ensures Ensured(f, r).cells.Keys == f.cells.Keys + {r}
  {
    hide Tracked, Recorded, Queued;
    if r !in f.cells {
      RootTracked(f, includes, r);
      RootRecorded(f, includes, r);
      RootQueued(f, includes, r);
    }
  }

  lemma RootTracked(f: Found, includes: map<nat, seq<nat>>, r: nat)
    requires SameKeys(f) && Tracked(f, includes, {}, []) && r in includes && r !in f.cells
    ensures SameKeys(Ensured(f, r)) && Tracked(Ensured(f, r), includes, {}, [])
    ensures Ensured(f, r).cells.Keys == f.cells.Keys + {r}
  {
    assert [] + (f.pending + [r]) == ([] + f.pending) + [r];
  }

  lemma RootRecorded(f: Found, includes: map<nat, seq<nat>>, r: nat)
    requires SameKeys(f) && SameKeys(Ensured(f, r)) && Recorded(f, includes, {}, 0, 0) && r !in f.cells
    ensures Recorded(Ensured(f, r), includes, {}, 0, 0)
  {
    hide Edge;
    var g := Ensured(f, r);
    assert forall d: nat :: ListOf(g.dependents, d) == ListOf(f.dependents, d);
    assert Inverted(g.dependents, includes, {}, 0, 0);
    hide Inverted;
    assert Counted(g, includes, {}, 0, 0);
  }

  lemma RootQueued(f: Found, includes: map<nat, seq<nat>>, r: nat)
    requires Queued(f, includes, {}) && r !in f.cells
    ensures Queued(Ensured(f, r), includes, {})
  {
  }

  lemma DoneKnown(f: Found, includes: map<nat, seq<nat>>, done: set<nat>)
    requires Tracked(f, includes, done, [])
    ensures done <= includes.Keys
  {
    forall s <- done
      ensures s in includes
    {
      assert s in f.cells;
    }
  }

  /** When the queue is empty every claimed Source is done. */
  lemma AllDone(f: Found, includes: map<nat, seq<nat>>, done: set<nat>)
    requires Tracked(f, includes, done, []) && f.pending == []
    ensures f.cells.Keys == done && forall s <- done :: s in includes
  {
    assert [] + f.pending == [];
    assert forall s :: s in f.cells.Keys <==> s in f.cells;
  }

  lemma DiscoveredValid(f: Found, includes: map<nat, seq<nat>>, done: set<nat>, front: Front)
    requires Resolved(includes) && SameKeys(f) && Tracked(f, includes, done, []) && f.pending == []
    requires Recorded(f, includes, done, 0, 0) && Queued(f, includes, done)
    requires front == Front(Includes(f.dependencies, f.dependents), f.cells, f.ready, |f.cells|, false)
    ensures Valid(front) && ClosedUnder(includes, f.cells.Keys)
    ensures forall s <- front.cells :: !front.cells[s].claimed && !front.cells[s].parsed
    ensures forall s <- front.cells :: s in includes && front.graph.dependencies[s] == includes[s]
  {
    hide *;
    AllDone(f, includes, done);
    RecordedParts(f, includes, done, 0, 0);
    DiscoveredLinked(f, includes, done, front);
    DiscoveredCounts(f, includes, done, front);
    DiscoveredQueue(f, includes, done);
    StartsValid(front);
  }

  lemma StartsValid(front: Front)
    requires Shaped(front) && CountsRemaining(front) && QueueExact(front.cells, front.ready)
    requires forall s <- front.cells :: !front.cells[s].claimed && !front.cells[s].parsed
    requires front.left == |front.cells| && !front.failed
    ensures Valid(front)
  {
    hide Shaped, CountsRemaining, QueueExact;
    assert UnparsedSet(front.cells) == front.cells.Keys;
  }

  lemma DiscoveredCounts(f: Found, includes: map<nat, seq<nat>>, done: set<nat>, front: Front)
    requires SameKeys(f) && f.cells.Keys == done && (forall s <- done :: s in includes)
    requires Counted(f, includes, done, 0, 0)
    requires front.graph.dependencies == f.dependencies && front.cells == f.cells
    ensures CountsRemaining(front)
    ensures forall s <- front.cells :: !front.cells[s].claimed && !front.cells[s].parsed
    ensures forall s <- front.cells :: s in includes && front.graph.dependencies[s] == includes[s]
  {
    assert forall s :: s in f.cells <==> s in done;
    forall s <- f.cells
      ensures f.cells[s].remaining == Unparsed(f.dependencies[s], f.cells)
    {
      AllUnparsed(f.dependencies[s], f.cells);
    }
  }

  lemma DiscoveredQueue(f: Found, includes: map<nat, seq<nat>>, done: set<nat>)
    requires SameKeys(f) && f.cells.Keys == done && (forall s <- done :: s in includes)
    requires Counted(f, includes, done, 0, 0) && Queued(f, includes, done)
    ensures QueueExact(f.cells, f.ready)
  {
    assert forall s :: s in f.cells <==> s in done;
  }

  lemma {:induction false} AllUnparsed(list: seq<nat>, cells: Cells)
    requires forall s <- cells :: !cells[s].parsed
    ensures Unparsed(list, cells) == |list|
  {
    if list != [] {
      AllUnparsed(list[..|list| - 1], cells);
    }
  }

  lemma DiscoveredLinked(f: Found, includes: map<nat, seq<nat>>, done: set<nat>, front: Front)
    requires Resolved(includes) && SameKeys(f) && f.cells.Keys == done && (forall s <- done :: s in includes)
    requires Recorded(f, includes, done, 0, 0)
    requires front.graph == Includes(f.dependencies, f.dependents) && front.cells == f.cells
    ensures Shaped(front) && front.cells.Keys == front.graph.dependencies.Keys && ClosedUnder(includes, done)
  {
    assert forall s <- done :: f.dependencies[s] == includes[s];
    assert forall s :: s in done <==> s in f.dependents.Keys;
    assert forall s :: s in done <==> s in f.dependencies.Keys;
    forall d <- f.dependents
      ensures NoDuplicates(f.dependents[d])
    {
    }
    forall s: nat, d: nat
      ensures s in ListOf(f.dependents, d) <==> s in done && d in includes[s]
    {
      assert Edge(includes, done, 0, 0, s, d) <==> s in ListOf(f.dependents, d);
    }
    hide Recorded, Inverted, Edge, NoDuplicates;
    forall s <- done, d <- includes[s]
      ensures d in done
    {
      assert s in ListOf(f.dependents, d);
    }
    forall d <- f.dependents
      ensures f.dependents[d] == ListOf(f.dependents, d)
    {
    }
    hide ListOf;
  }
}
