/** The semantic phase of a full frontend build.

After discovery every Source knows its direct dependencies and its dependents.
Workers take ready Sources from one queue, parse them outside the lock, and then
release the dependents, all under one mutex. Each critical section is one step
here, and a run is any interleaving of the steps of any number of workers.
 */
module SemanticSchedule {
  import opened Collections

  /** What discovery recorded: the direct dependencies of every Source, and the inverse. */
  datatype Includes = Includes(dependencies: map<nat, seq<nat>>, dependents: map<nat, seq<nat>>)

  datatype Cell = Cell(remaining: nat, claimed: bool, queued: bool, parsed: bool)

  type Cells = map<nat, Cell>

  /** `left` is semantic_remaining. */
  datatype Front = Front(graph: Includes, cells: Cells, ready: seq<nat>, left: nat, failed: bool)

  /** The include graph is closed, without duplicates, and recorded both ways. */
  ghost predicate Linked(g: Includes) {
    && g.dependencies.Keys == g.dependents.Keys
    && (forall s <- g.dependencies :: NoDuplicates(g.dependencies[s]) && NoDuplicates(g.dependents[s]))
    && (forall s <- g.dependencies, d <- g.dependencies[s] :: d in g.dependencies)
    && (forall d <- g.dependents, s <- g.dependents[d] :: s in g.dependents)
    && (forall s <- g.dependencies, d <- g.dependents :: s in g.dependents[d] <==> d in g.dependencies[s])
  }

  predicate IsParsed(cells: Cells, s: nat) {
    s in cells && cells[s].parsed
  }

  /** How many Sources of a list are not parsed yet. */
  function Unparsed(list: seq<nat>, cells: Cells): nat {
    if list == [] then 0
    else Unparsed(list[..|list| - 1], cells) + (if IsParsed(cells, list[|list| - 1]) then 0 else 1)
  }

  ghost function UnparsedSet(cells: Cells): set<nat> {
    set s | s in cells && !cells[s].parsed
  }

  predicate Eligible(cell: Cell) {
    cell.remaining == 0 && !cell.claimed && !cell.parsed
  }

  ghost predicate Shaped(f: Front) {
    Linked(f.graph) && f.cells.Keys == f.graph.dependencies.Keys
  }

  /** `remaining` counts the direct dependencies that are not parsed. */
  ghost predicate CountsRemaining(f: Front)
    requires f.cells.Keys == f.graph.dependencies.Keys
  {
    forall s <- f.cells :: f.cells[s].remaining == Unparsed(f.graph.dependencies[s], f.cells)
  }

  /** A Source is claimed after its last dependency was parsed, and parsed after it was claimed. */
  ghost predicate Ordered(cells: Cells) {
    forall s <- cells ::
      && (cells[s].claimed ==> cells[s].remaining == 0)
      && (cells[s].parsed ==> cells[s].claimed)
  }

  /** The queue holds exactly the Sources that could be claimed now, each once. */
  ghost predicate QueueExact(cells: Cells, ready: seq<nat>) {
    && NoDuplicates(ready)
    && (forall s <- ready :: s in cells)
    && (forall s <- cells :: s in ready <==> cells[s].queued)
    && (forall s <- cells :: cells[s].queued <==> Eligible(cells[s]))
  }

  ghost predicate QueueValid(f: Front) {
    if f.failed then f.ready == [] else QueueExact(f.cells, f.ready)
  }

  ghost predicate Valid(f: Front) {
    && Shaped(f) && CountsRemaining(f) && Ordered(f.cells) && QueueValid(f)
    && f.left == |UnparsedSet(f.cells)|
  }

  // ----- The critical sections -----

  /** enqueue_ready_locked */
  function Enqueued(f: Front, s: nat): Front
    requires s in f.cells
  {
    if !f.failed && Eligible(f.cells[s]) && !f.cells[s].queued
    then f.(cells := f.cells[s := f.cells[s].(queued := true)], ready := f.ready + [s])
    else f
  }

  /** One dependent loses one unparsed dependency. */
  function Released(f: Front, s: nat): Front
    requires s in f.cells
  {
    var less := if f.cells[s].remaining != 0 then f.cells[s].remaining - 1 else 0;
    Enqueued(f.(cells := f.cells[s := f.cells[s].(remaining := less)]), s)
  }

  /** The release loop at the end of parse_and_capture. */
  function ReleasedAll(f: Front, dependents: seq<nat>): (r: Front)
    requires forall s <- dependents :: s in f.cells
    ensures r.cells.Keys == f.cells.Keys
    decreases |dependents|
  {
    if dependents == [] then f
    else
      assert forall s <- dependents[..|dependents| - 1] :: s in dependents;
      Released(ReleasedAll(f, dependents[..|dependents| - 1]), dependents[|dependents| - 1])
  }

  function Marked(f: Front, s: nat): Front
    requires s in f.cells
  {
    f.(cells := f.cells[s := f.cells[s].(parsed := true)], left := if f.left != 0 then f.left - 1 else 0)
  }

  /** The final critical section of parse_and_capture. */
  function Finished(f: Front, s: nat): Front
    requires s in f.cells && s in f.graph.dependents && forall d <- f.graph.dependents[s] :: d in f.cells
  {
    ReleasedAll(Marked(f, s), f.graph.dependents[s])
  }

  /** The front of the queue is taken off; it is claimed unless it was before. */
  function Taken(f: Front): Front
    requires f.ready != [] && f.ready[0] in f.cells
  {
    var s := f.ready[0];
    var cell := f.cells[s].(queued := false);
    f.(ready := f.ready[1..],
       cells := f.cells[s := if cell.claimed || cell.parsed then cell else cell.(claimed := true)])
  }

  /** fail_locked */
  function Failed(f: Front): Front {
    f.(failed := true, ready := [])
  }

  // ----- The critical sections keep the invariant -----

  lemma {:induction false} UnparsedSame(list: seq<nat>, a: Cells, b: Cells)
    requires forall s <- list :: IsParsed(a, s) == IsParsed(b, s)
    ensures Unparsed(list, a) == Unparsed(list, b)
  {
    if list != [] {
      UnparsedSame(list[..|list| - 1], a, b);
    }
  }

  lemma {:induction false} UnparsedOneLess(list: seq<nat>, a: Cells, b: Cells, p: nat)
    requires NoDuplicates(list)
    requires forall s <- list :: s != p ==> IsParsed(a, s) == IsParsed(b, s)
    requires !IsParsed(a, p) && IsParsed(b, p)
    ensures Unparsed(list, b) == Unparsed(list, a) - (if p in list then 1 else 0)
  {
    if list != [] {
      var last := |list| - 1;
      assert list == list[..last] + [list[last]];
      assert list[last] !in list[..last];
      UnparsedOneLess(list[..last], a, b, p);
    }
  }

  lemma {:induction false} NoneUnparsed(list: seq<nat>, cells: Cells)
    ensures Unparsed(list, cells) == 0 <==> forall s <- list :: IsParsed(cells, s)
  {
    if list != [] {
      var last := |list| - 1;
      assert list == list[..last] + [list[last]];
      NoneUnparsed(list[..last], cells);
    }
  }

  lemma TakenQueue(f: Front)
    requires QueueValid(f) && f.ready != []
    ensures f.ready[0] in f.cells && Eligible(f.cells[f.ready[0]])
    ensures QueueValid(Taken(f))
    ensures Taken(f).cells == f.cells[f.ready[0] := f.cells[f.ready[0]].(queued := false, claimed := true)]
  {
    var s := f.ready[0];
    assert s in f.ready;
    assert f.ready == [s] + f.ready[1..];
    assert s !in f.ready[1..];
  }

  lemma SameParsed(f: Front, f': Front)
    requires f'.graph == f.graph && f'.cells.Keys == f.cells.Keys && Shaped(f)
    requires forall s <- f.cells :: f'.cells[s].parsed == f.cells[s].parsed
    ensures forall s <- f.cells :: Unparsed(f'.graph.dependencies[s], f'.cells) == Unparsed(f.graph.dependencies[s], f.cells)
    ensures UnparsedSet(f'.cells) == UnparsedSet(f.cells)
  {
    assert forall s :: s in f'.cells <==> s in f'.cells.Keys;
    assert forall s :: IsParsed(f.cells, s) == IsParsed(f'.cells, s);
    forall s <- f.cells
      ensures Unparsed(f'.graph.dependencies[s], f'.cells) == Unparsed(f.graph.dependencies[s], f.cells)
    {
      UnparsedSame(f.graph.dependencies[s], f.cells, f'.cells);
    }
  }

  /** Nothing was parsed in between, so counts and shape carry over. */
  lemma CountsKept(f: Front, f': Front)
    requires Shaped(f) && CountsRemaining(f) && f.left == |UnparsedSet(f.cells)|
    requires f'.graph == f.graph && f'.cells.Keys == f.cells.Keys && f'.left == f.left
    requires forall s <- f.cells :: f'.cells[s].parsed == f.cells[s].parsed && f'.cells[s].remaining == f.cells[s].remaining
    ensures Shaped(f') && CountsRemaining(f') && f'.left == |UnparsedSet(f'.cells)|
  {
    hide Unparsed, Linked;
    SameParsed(f, f');
  }

  lemma DependenciesParsed(f: Front, s: nat)
    requires Shaped(f) && CountsRemaining(f) && s in f.cells && f.cells[s].remaining == 0
    ensures s in f.graph.dependencies && forall d <- f.graph.dependencies[s] :: IsParsed(f.cells, d)
  {
    NoneUnparsed(f.graph.dependencies[s], f.cells);
  }

  /** Whoever takes a Source off the queue claims it for the first time, and all
  its dependencies are parsed. */
  lemma TakenValid(f: Front)
    requires Valid(f) && f.ready != []
    ensures f.ready[0] in f.cells && Eligible(f.cells[f.ready[0]])
    ensures Valid(Taken(f))
    ensures Taken(f).cells == f.cells[f.ready[0] := f.cells[f.ready[0]].(queued := false, claimed := true)]
    ensures f.ready[0] in f.graph.dependencies
    ensures forall d <- f.graph.dependencies[f.ready[0]] :: IsParsed(f.cells, d)
  {
    hide Linked, Unparsed, Shaped, CountsRemaining, QueueExact, UnparsedSet;
    TakenQueue(f);
    hide QueueValid;
    DependenciesParsed(f, f.ready[0]);
    CountsKept(f, Taken(f));
  }

  /** Between marking a Source parsed and releasing its dependents: those still
  to be released count one dependency too many. */
  ghost predicate Releasing(f: Front, pending: seq<nat>) {
    && Shaped(f) && Ordered(f.cells) && QueueValid(f)
    && f.left == |UnparsedSet(f.cells)|
    && NoDuplicates(pending)
    && (forall s <- pending :: s in f.cells && !f.cells[s].claimed)
    && (forall s <- f.cells ::
          f.cells[s].remaining == Unparsed(f.graph.dependencies[s], f.cells) + (if s in pending then 1 else 0))
  }

  /** What a release leaves alone. */
  ghost predicate OnlyReleases(f: Front, f': Front) {
    && f'.graph == f.graph && f'.failed == f.failed && f'.left == f.left
    && f'.cells.Keys == f.cells.Keys
    && forall s <- f.cells :: f'.cells[s].parsed == f.cells[s].parsed && f'.cells[s].claimed == f.cells[s].claimed
  }

  lemma ReleasedQueue(f: Front, s: nat)
    requires QueueValid(f) && s in f.cells && f.cells[s].remaining > 0
    ensures QueueValid(Released(f, s)) && OnlyReleases(f, Released(f, s))
    ensures forall x <- f.cells :: Released(f, s).cells[x].remaining
                                == if x == s then f.cells[x].remaining - 1 else f.cells[x].remaining
  {
  }

  lemma ReleasedStep(f: Front, pending: seq<nat>)
    requires Releasing(f, pending) && pending != []
    ensures pending[0] in f.cells
    ensures Releasing(Released(f, pending[0]), pending[1..])
    ensures OnlyReleases(f, Released(f, pending[0]))
  {
    hide QueueValid, Unparsed, Linked, UnparsedSet;
    var s := pending[0];
    assert pending == [s] + pending[1..];
    assert s in pending && s !in pending[1..];
    ReleasedQueue(f, s);
    hide Released;
    SameParsed(f, Released(f, s));
  }

  lemma {:induction false} ReleasedAllValid(f: Front, all: seq<nat>, n: nat)
    requires Releasing(f, all) && n <= |all|
    ensures Releasing(ReleasedAll(f, all[..n]), all[n..])
    ensures OnlyReleases(f, ReleasedAll(f, all[..n]))
    decreases n
  {
    hide Shaped, Ordered, QueueValid, Unparsed, NoDuplicates, Released;
    if n == 0 {
      assert all[n..] == all;
    } else {
      ReleasedAllValid(f, all, n - 1);
      assert all[..n][..n - 1] == all[..n - 1];
      ReleasedStep(ReleasedAll(f, all[..n - 1]), all[n - 1..]);
      assert all[n - 1..][1..] == all[n..];
    }
  }

  lemma MarkedCounts(f: Front, p: nat)
    requires Shaped(f) && CountsRemaining(f) && p in f.cells && !f.cells[p].parsed
    ensures p in f.graph.dependents
    ensures forall s <- f.cells :: s in f.graph.dependencies
              && Unparsed(f.graph.dependencies[s], Marked(f, p).cells)
              == f.cells[s].remaining - (if s in f.graph.dependents[p] then 1 else 0)
  {
    var f' := Marked(f, p);
    forall s <- f.cells
      ensures Unparsed(f.graph.dependencies[s], f'.cells)
           == f.cells[s].remaining - (if s in f.graph.dependents[p] then 1 else 0)
    {
      UnparsedOneLess(f.graph.dependencies[s], f.cells, f'.cells, p);
    }
  }

  lemma MarkedLeft(f: Front, p: nat)
    requires p in f.cells && !f.cells[p].parsed && f.left == |UnparsedSet(f.cells)|
    ensures Marked(f, p).left == |UnparsedSet(Marked(f, p).cells)| == f.left - 1
  {
    assert UnparsedSet(Marked(f, p).cells) == UnparsedSet(f.cells) - {p};
    assert p in UnparsedSet(f.cells);
  }

  lemma MarkedQueue(f: Front, p: nat)
    requires QueueValid(f) && Ordered(f.cells) && p in f.cells && f.cells[p].claimed
    ensures QueueValid(Marked(f, p)) && Ordered(Marked(f, p).cells)
  {
  }

  lemma MarkedReleasing(f: Front, p: nat)
    requires Valid(f) && p in f.cells && f.cells[p].claimed && !f.cells[p].parsed
    ensures p in f.graph.dependents
    ensures Releasing(Marked(f, p), f.graph.dependents[p])
    ensures Marked(f, p).left == f.left - 1
  {
    hide Unparsed, QueueValid, UnparsedSet;
    MarkedCounts(f, p);
    MarkedLeft(f, p);
    MarkedQueue(f, p);
    var f', all := Marked(f, p), f.graph.dependents[p];
    assert NoDuplicates(all) && forall s <- all :: s in f.cells;
    hide Linked, NoDuplicates;
    forall s <- all
      ensures !f.cells[s].claimed
    {
      assert f.cells[s].remaining - 1 >= 0;
    }
  }

  lemma ReleasingDone(f: Front)
    requires Releasing(f, [])
    ensures Valid(f)
  {
    hide Unparsed, Linked, QueueValid, UnparsedSet;
  }

  lemma DependentsKnown(f: Front, p: nat)
    requires Valid(f) && p in f.cells
    ensures p in f.graph.dependents && forall s <- f.graph.dependents[p] :: s in f.cells
  {
    hide CountsRemaining, Ordered, QueueValid, UnparsedSet;
  }

  lemma FinishedIs(f: Front, p: nat, r: Front)
    requires p in f.cells && p in f.graph.dependents && forall s <- f.graph.dependents[p] :: s in f.cells
    requires r == ReleasedAll(Marked(f, p), f.graph.dependents[p])
    ensures Finished(f, p) == r
  {
    hide ReleasedAll;
  }

  /** Finishing a claimed Source keeps every count right and queues exactly the
  Sources that became ready. */
  lemma FinishedValid(f: Front, p: nat)
    requires Valid(f) && p in f.cells && f.cells[p].claimed && !f.cells[p].parsed
    ensures p in f.graph.dependents && forall s <- f.graph.dependents[p] :: s in f.cells
    ensures Valid(Finished(f, p))
    ensures OnlyReleases(Marked(f, p), Finished(f, p)) && Finished(f, p).left == f.left - 1
  {
    DependentsKnown(f, p);
    hide *;
    var all := f.graph.dependents[p];
    MarkedReleasing(f, p);
    MarkedKnows(f, p);
    ReleasedAllValid(Marked(f, p), all, |all|);
    TakeAll(all);
    assert all[|all|..] == [];
    FinishedIs(f, p, ReleasedAll(Marked(f, p), all));
    ReleasingDone(Finished(f, p));
    ReleasesKeepLeft(Marked(f, p), Finished(f, p));
  }

  lemma MarkedKnows(f: Front, p: nat)
    requires p in f.cells
    ensures Marked(f, p).cells.Keys == f.cells.Keys && Marked(f, p).graph == f.graph
  {
  }

  lemma ReleasesKeepLeft(f: Front, f': Front)
    requires OnlyReleases(f, f')
    ensures f'.left == f.left
  {
  }

  lemma FailedValid(f: Front)
    requires Valid(f)
    ensures Valid(Failed(f))
  {
  }

  // ----- Runs: any interleaving of any number of workers -----

  /** A reporting worker has marked its Source parsed and stores the diagnostics. */
  datatype Worker = Idle | Parsing(source: nat) | Reporting | Stopped

  datatype Event = Started(source: nat) | Parsed(source: nat)

  datatype Machine = Machine(front: Front, workers: seq<Worker>, log: seq<Event>)

  datatype Action = Take | Finish | Report | Fail | Stop

  ghost predicate Enabled(m: Machine, w: nat, action: Action) {
    && w < |m.workers|
    && match action
       case Take => m.workers[w].Idle? && !m.front.failed && m.front.left != 0 && m.front.ready != []
       case Finish => m.workers[w].Parsing?
       case Report => m.workers[w].Reporting?
       case Fail => m.workers[w].Parsing? || m.workers[w].Reporting?
       case Stop => m.workers[w].Idle? && (m.front.failed || m.front.left == 0)
  }

  /** One critical section of worker `w`, or its storing of diagnostics. */
  ghost predicate Step(m: Machine, w: nat, action: Action, m': Machine) {
    && Enabled(m, w, action)
    && match action
       case Take =>
         var s := m.front.ready[0];
         && s in m.front.cells
         && m'.front == Taken(m.front)
         && (if m.front.cells[s].claimed || m.front.cells[s].parsed
             then m'.workers == m.workers && m'.log == m.log
             else m'.workers == m.workers[w := Parsing(s)] && m'.log == m.log + [Started(s)])
       case Finish =>
         var s := m.workers[w].source;
         && s in m.front.cells && s in m.front.graph.dependents
         && (forall d <- m.front.graph.dependents[s] :: d in m.front.cells)
         && m'.front == Finished(m.front, s)
         && m'.workers == m.workers[w := Reporting] && m'.log == m.log + [Parsed(s)]
       case Report => m'.front == m.front && m'.workers == m.workers[w := Idle] && m'.log == m.log
       case Fail => m'.front == Failed(m.front) && m'.workers == m.workers[w := Stopped] && m'.log == m.log
       case Stop => m'.front == m.front && m'.workers == m.workers[w := Stopped] && m'.log == m.log
  }

  /** The parsing workers hold exactly the claimed Sources, one each. */
  ghost predicate Held(cells: Cells, workers: seq<Worker>, failed: bool) {
    && (forall w: nat :: w < |workers| && workers[w].Parsing? ==>
          workers[w].source in cells && cells[workers[w].source].claimed && !cells[workers[w].source].parsed)
    && (forall v: nat, w: nat :: v < w < |workers| && workers[v].Parsing? && workers[w].Parsing? ==>
          workers[v].source != workers[w].source)
    && (!failed ==> forall s <- cells :: cells[s].claimed && !cells[s].parsed ==> Parsing(s) in workers)
  }

  /** The log: each Source starts and finishes at most once, and starts after
  all its dependencies have finished. */
  ghost predicate Logged(graph: Includes, cells: Cells, log: seq<Event>) {
    && NoDuplicates(log)
    && (forall s :: Started(s) in log <==> s in cells && cells[s].claimed)
    && (forall s :: Parsed(s) in log <==> IsParsed(cells, s))
    && (forall i: nat :: i < |log| && log[i].Started? && log[i].source in graph.dependencies ==>
          forall d <- graph.dependencies[log[i].source] :: Parsed(d) in log[..i])
  }

  ghost predicate Inv(m: Machine) {
    Valid(m.front) && Held(m.front.cells, m.workers, m.front.failed) && Logged(m.front.graph, m.front.cells, m.log)
  }

  lemma StartLogged(graph: Includes, cells: Cells, log: seq<Event>, s: nat, cells': Cells)
    requires Logged(graph, cells, log) && s in cells && !cells[s].claimed
    requires cells' == cells[s := cells[s].(queued := false, claimed := true)]
    requires s in graph.dependencies && forall d <- graph.dependencies[s] :: IsParsed(cells, d)
    ensures Logged(graph, cells', log + [Started(s)])
  {
    assert forall x :: IsParsed(cells', x) == IsParsed(cells, x);
    hide IsParsed;
    var more := log + [Started(s)];
    forall i: nat | i < |more|
      ensures more[..i] == log[..i]
    {
    }
    assert log[..|log|] == log;
  }

  lemma ParseLogged(graph: Includes, cells: Cells, log: seq<Event>, s: nat, cells': Cells)
    requires Logged(graph, cells, log) && s in cells && !cells[s].parsed
    requires cells'.Keys == cells.Keys
    requires forall x <- cells :: cells'[x].claimed == cells[x].claimed && cells'[x].parsed == (cells[x].parsed || x == s)
    ensures Logged(graph, cells', log + [Parsed(s)])
  {
    assert forall x :: x in cells' <==> x in cells'.Keys;
    assert forall x :: IsParsed(cells', x) == (IsParsed(cells, x) || x == s);
    hide IsParsed;
    var more := log + [Parsed(s)];
    forall i: nat | i < |more|
      ensures more[..i] == log[..i]
    {
    }
  }

  lemma StartHeld(cells: Cells, workers: seq<Worker>, failed: bool, w: nat, s: nat, cells': Cells)
    requires Held(cells, workers, failed) && s in cells && !cells[s].claimed && !cells[s].parsed
    requires cells' == cells[s := cells[s].(queued := false, claimed := true)]
    requires w < |workers| && !workers[w].Parsing?
    ensures Held(cells', workers[w := Parsing(s)], failed)
  {
    var workers' := workers[w := Parsing(s)];
    assert workers'[w] == Parsing(s);
    forall x <- cells' | cells'[x].claimed && !cells'[x].parsed && !failed
      ensures Parsing(x) in workers'
    {
      if x != s {
        WorkerKept(workers, w, Parsing(s), Parsing(x));
      }
    }
  }

  lemma WorkerKept(workers: seq<Worker>, w: nat, new_: Worker, kept: Worker)
    requires w < |workers| && kept in workers && workers[w] != kept
    ensures kept in workers[w := new_]
  {
    var v :| 0 <= v < |workers| && workers[v] == kept;
    assert workers[w := new_][v] == kept;
  }

  lemma ParseHeld(cells: Cells, workers: seq<Worker>, failed: bool, w: nat, s: nat, cells': Cells)
    requires Held(cells, workers, failed) && w < |workers| && workers[w] == Parsing(s)
    requires cells'.Keys == cells.Keys
    requires forall x <- cells :: cells'[x].claimed == cells[x].claimed && cells'[x].parsed == (cells[x].parsed || x == s)
    ensures Held(cells', workers[w := Reporting], failed)
  {
    assert forall x :: x in cells' <==> x in cells'.Keys;
    forall x <- cells' | cells'[x].claimed && !cells'[x].parsed && !failed
      ensures Parsing(x) in workers[w := Reporting]
    {
      WorkerKept(workers, w, Reporting, Parsing(x));
    }
  }

  lemma RestHeld(cells: Cells, workers: seq<Worker>, failed: bool, w: nat, y: Worker)
    requires Held(cells, workers, failed) && w < |workers| && (failed || !workers[w].Parsing?) && !y.Parsing?
    ensures Held(cells, workers[w := y], failed)
  {
    forall x <- cells | cells[x].claimed && !cells[x].parsed && !failed
      ensures Parsing(x) in workers[w := y]
    {
      WorkerKept(workers, w, y, Parsing(x));
    }
  }

  lemma FailedHeld(cells: Cells, workers: seq<Worker>, failed: bool)
    requires Held(cells, workers, failed)
    ensures Held(cells, workers, true)
  {
  }

  lemma TakenKeeps(f: Front)
    requires f.ready != [] && f.ready[0] in f.cells
    ensures Taken(f).graph == f.graph && Taken(f).failed == f.failed && Taken(f).left == f.left
  {
  }

  lemma TakeKeepsInv(m: Machine, w: nat, m': Machine)
    requires Inv(m) && Step(m, w, Take, m')
    ensures Inv(m')
  {
    hide Valid, Held, Logged, Taken, IsParsed;
    TakenValid(m.front);
    TakenKeeps(m.front);
    var s := m.front.ready[0];
    StartHeld(m.front.cells, m.workers, m.front.failed, w, s, m'.front.cells);
    StartLogged(m.front.graph, m.front.cells, m.log, s, m'.front.cells);
  }

  lemma HeldSource(m: Machine, w: nat)
    requires Held(m.front.cells, m.workers, m.front.failed) && w < |m.workers| && m.workers[w].Parsing?
    ensures m.workers[w].source in m.front.cells
    ensures m.front.cells[m.workers[w].source].claimed && !m.front.cells[m.workers[w].source].parsed
  {
  }

  lemma FinishedCells(f: Front, p: nat, f': Front)
    requires p in f.cells && OnlyReleases(Marked(f, p), f')
    ensures f'.graph == f.graph && f'.failed == f.failed && f'.cells.Keys == f.cells.Keys
    ensures forall x <- f.cells ::
              f'.cells[x].claimed == f.cells[x].claimed && f'.cells[x].parsed == (f.cells[x].parsed || x == p)
  {
  }

  lemma FinishKeepsInv(m: Machine, w: nat, m': Machine)
    requires Inv(m) && Step(m, w, Finish, m')
    ensures Inv(m')
  {
    hide Valid, Held, Logged, Finished, OnlyReleases, Marked;
    var s := m.workers[w].source;
    HeldSource(m, w);
    FinishedValid(m.front, s);
    FinishedCells(m.front, s, m'.front);
    ParseHeld(m.front.cells, m.workers, m.front.failed, w, s, m'.front.cells);
    ParseLogged(m.front.graph, m.front.cells, m.log, s, m'.front.cells);
  }

  /** Every step of every worker keeps the invariant. */
  lemma StepKeepsInv(m: Machine, w: nat, action: Action, m': Machine)
    requires Inv(m) && Step(m, w, action, m')
    ensures Inv(m')
  {
    hide Valid, Held, Logged;
    match action
    case Take =>
      hide Inv, Step;
      TakeKeepsInv(m, w, m');
    case Finish =>
      hide Inv, Step;
      FinishKeepsInv(m, w, m');
    case Fail =>
      FailedValid(m.front);
      FailedHeld(m.front.cells, m.workers, m.front.failed);
      RestHeld(m.front.cells, m.workers, true, w, Stopped);
    case Report =>
      RestHeld(m.front.cells, m.workers, m.front.failed, w, Idle);
    case Stop =>
      RestHeld(m.front.cells, m.workers, m.front.failed, w, Stopped);
  }

  // ----- Whole runs -----

  /** The semantic phase starts: nothing is claimed, the ready Sources are queued. */
  ghost predicate Start(m: Machine) {
    && Valid(m.front) && !m.front.failed && m.log == []
    && (forall s <- m.front.cells :: !m.front.cells[s].claimed && !m.front.cells[s].parsed)
    && (forall w <- m.workers :: w == Idle)
  }

  ghost predicate Run(states: seq<Machine>, moves: seq<(nat, Action)>) {
    && |states| == |moves| + 1 && Start(states[0])
    && forall i: nat :: i < |moves| ==> Step(states[i], moves[i].0, moves[i].1, states[i + 1])
  }

  lemma StartInv(m: Machine)
    requires Start(m)
    ensures Inv(m)
  {
    hide Valid;
    forall w: nat | w < |m.workers|
      ensures m.workers[w] == Idle
    {
      assert m.workers[w] in m.workers;
    }
  }

  lemma {:induction false} RunsKeepInv(states: seq<Machine>, moves: seq<(nat, Action)>, i: nat)
    requires Run(states, moves) && i < |states|
    ensures Inv(states[i]) && states[i].front.graph == states[0].front.graph
    ensures |states[i].workers| == |states[0].workers|
  {
    hide Valid;
    if i == 0 {
      StartInv(states[0]);
    } else {
      RunsKeepInv(states, moves, i - 1);
      hide Inv, Start;
      StepKeepsInv(states[i - 1], moves[i - 1].0, moves[i - 1].1, states[i]);
      StepFixes(states[i - 1], moves[i - 1].0, moves[i - 1].1, states[i]);
    }
  }

  lemma StepFixes(m: Machine, w: nat, action: Action, m': Machine)
    requires Inv(m) && Step(m, w, action, m')
    ensures m'.front.graph == m.front.graph && |m'.workers| == |m.workers|
  {
    hide Valid, Logged;
    if action == Finish {
      HeldSource(m, w);
      FinishedValid(m.front, m.workers[w].source);
      FinishedCells(m.front, m.workers[w].source, m'.front);
    }
  }

  /** In every run, whatever the interleaving: no Source is parsed twice, and
  none is started before all its direct dependencies have been parsed. */
  lemma ParsedOnceInOrder(states: seq<Machine>, moves: seq<(nat, Action)>, n: nat, i: nat, j: nat)
    requires Run(states, moves) && n < |states|
    requires i < |states[n].log| && j < |states[n].log| && states[n].log[i].Started?
    ensures states[n].log[i] == states[n].log[j] ==> i == j
    ensures states[n].log[i].source in states[0].front.graph.dependencies ==>
              forall d <- states[0].front.graph.dependencies[states[n].log[i].source] ::
                exists k: nat :: k < i && states[n].log[k] == Parsed(d)
  {
    hide Run, Valid, Held;
    RunsKeepInv(states, moves, n);
    var g, log := states[n].front.graph, states[n].log;
    if log[i].source in g.dependencies {
      forall d <- g.dependencies[log[i].source]
        ensures exists k: nat :: k < i && log[k] == Parsed(d)
      {
        assert Parsed(d) in log[..i];
        var k :| 0 <= k < i && log[..i][k] == Parsed(d);
        assert log[k] == Parsed(d);
      }
    }
  }

  // ----- No deadlock, no livelock -----

  /** The include graph can be ranked: validation has refused include cycles. */
  ghost predicate Acyclic(g: Includes, rank: map<nat, nat>) {
    forall s <- g.dependencies, d <- g.dependencies[s] :: s in rank && d in rank && rank[d] < rank[s]
  }

  lemma UnparsedDependency(f: Front, s: nat) returns (d: nat)
    requires Shaped(f) && CountsRemaining(f) && s in f.cells && f.cells[s].remaining > 0
    ensures s in f.graph.dependencies && d in f.graph.dependencies[s]
    ensures d in f.cells && !f.cells[d].parsed
  {
    NoneUnparsed(f.graph.dependencies[s], f.cells);
    hide Unparsed, NoDuplicates, CountsRemaining;
    d :| d in f.graph.dependencies[s] && !IsParsed(f.cells, d);
  }

  lemma RankDrops(g: Includes, rank: map<nat, nat>, s: nat, d: nat)
    requires Acyclic(g, rank) && s in g.dependencies && d in g.dependencies[s]
    ensures s in rank && d in rank && rank[d] < rank[s]
  {
  }

  /** Following unparsed dependencies downwards ends at a Source that has none. */
  lemma {:induction false} SomeReady(f: Front, rank: map<nat, nat>, s: nat) returns (r: nat)
    requires Shaped(f) && CountsRemaining(f) && Acyclic(f.graph, rank) && s in f.cells && !f.cells[s].parsed
    ensures r in f.cells && !f.cells[r].parsed && f.cells[r].remaining == 0
    decreases if s in rank then rank[s] else 0
  {
    hide Shaped, CountsRemaining, Acyclic;
    if f.cells[s].remaining == 0 {
      return s;
    }
    var d := UnparsedDependency(f, s);
    RankDrops(f.graph, rank, s, d);
    r := SomeReady(f, rank, d);
  }

  /** As long as some worker has not stopped, some worker can move without failing:
  nobody waits forever. */
  lemma NoDeadlock(m: Machine, rank: map<nat, nat>, w: nat) returns (v: nat, action: Action)
    requires Inv(m) && Acyclic(m.front.graph, rank)
    requires w < |m.workers| && m.workers[w] != Stopped
    ensures Enabled(m, v, action) && !action.Fail?
  {
    hide Logged, Shaped, CountsRemaining, Acyclic;
    if m.workers[w].Parsing? {
      return w, Finish;
    }
    if m.workers[w].Reporting? {
      return w, Report;
    }
    if m.front.failed || m.front.left == 0 {
      return w, Stop;
    }
    if m.front.ready != [] {
      return w, Take;
    }
    var s :| s in UnparsedSet(m.front.cells);
    var r := SomeReady(m.front, rank, s);
    assert r !in m.front.ready;
    assert Parsing(r) in m.workers;
    v :| 0 <= v < |m.workers| && m.workers[v] == Parsing(r);
    action := Finish;
  }

  function Ahead(w: Worker): nat {
    if w.Stopped? then 0 else if w.Reporting? then 2 else 1
  }

  function Running(workers: seq<Worker>): nat {
    if workers == [] then 0
    else Running(workers[..|workers| - 1]) + Ahead(workers[|workers| - 1])
  }

  ghost function UnclaimedSet(cells: Cells): set<nat> {
    set s | s in cells && !cells[s].claimed
  }

  /** How many steps a run can still take at most. */
  ghost function StepsLeft(m: Machine): nat {
    |UnclaimedSet(m.front.cells)| + 2 * m.front.left + Running(m.workers)
  }

  lemma {:induction false} RunningAfter(workers: seq<Worker>, w: nat, x: Worker)
    requires w < |workers|
    ensures Running(workers[w := x]) == Running(workers) - Ahead(workers[w]) + Ahead(x)
    decreases |workers|
  {
    var last := |workers| - 1;
    if w == last {
      assert workers[w := x][..last] == workers[..last];
    } else {
      assert workers[w := x][..last] == workers[..last][w := x];
      RunningAfter(workers[..last], w, x);
    }
  }

  lemma TakeUsesStep(m: Machine, w: nat, m': Machine)
    requires Inv(m) && Step(m, w, Take, m')
    ensures StepsLeft(m') < StepsLeft(m)
  {
    hide Logged, Valid, Taken, Held;
    TakenValid(m.front);
    TakenKeeps(m.front);
    var s := m.front.ready[0];
    RunningAfter(m.workers, w, Parsing(s));
    assert UnclaimedSet(m'.front.cells) == UnclaimedSet(m.front.cells) - {s};
    assert s in UnclaimedSet(m.front.cells);
  }

  lemma FinishUsesStep(m: Machine, w: nat, m': Machine)
    requires Inv(m) && Step(m, w, Finish, m')
    ensures StepsLeft(m') < StepsLeft(m)
  {
    hide Valid, Finished, Held, OnlyReleases, Logged, Marked;
    var s := m.workers[w].source;
    HeldSource(m, w);
    FinishedValid(m.front, s);
    FinishedCells(m.front, s, m'.front);
    RunningAfter(m.workers, w, Reporting);
    assert forall x :: x in m'.front.cells <==> x in m'.front.cells.Keys;
    assert UnclaimedSet(m'.front.cells) == UnclaimedSet(m.front.cells);
  }

  /** Every step uses one up, so no run is infinite. */
  lemma StepsRunOut(m: Machine, w: nat, action: Action, m': Machine)
    requires Inv(m) && Step(m, w, action, m')
    ensures StepsLeft(m') < StepsLeft(m)
  {
    hide Inv, Valid;
    match action
    case Take => TakeUsesStep(m, w, m');
    case Finish => FinishUsesStep(m, w, m');
    case Report => RunningAfter(m.workers, w, Idle);
    case Fail => RunningAfter(m.workers, w, Stopped);
    case Stop => RunningAfter(m.workers, w, Stopped);
  }

  /** When all workers have stopped without a failure, every Source was parsed.
  (At least one worker is started whenever there is a Source.) */
  lemma AllParsedAtEnd(states: seq<Machine>, moves: seq<(nat, Action)>, n: nat)
    requires Run(states, moves) && n < |states| && !states[n].front.failed
    requires states[0].workers != [] && forall w <- states[n].workers :: w == Stopped
    ensures forall s <- states[n].front.cells :: states[n].front.cells[s].parsed
  {
    hide Valid;
    FirstIdle(states, moves);
    assert states[0].workers[0] in states[0].workers;
    if n > 0 {
      RunsKeepInv(states, moves, n);
      assert states[n].workers[0] in states[n].workers;
      StoppedAt(states, moves, n);
      NoneLeft(states[n].front);
    }
  }

  lemma NoneLeft(f: Front)
    requires Valid(f) && f.left == 0
    ensures forall s <- f.cells :: f.cells[s].parsed
  {
    assert forall s <- f.cells :: !f.cells[s].parsed ==> s in UnparsedSet(f.cells);
  }

  /** A worker stops without failure only when nothing is left, and then nothing is left ever after. */
  lemma {:induction false} StoppedAt(states: seq<Machine>, moves: seq<(nat, Action)>, n: nat)
    requires Run(states, moves) && 0 < n < |states| && !states[n].front.failed
    requires exists w <- states[n].workers :: w == Stopped
    ensures states[n].front.left == 0
    decreases n
  {
    hide Valid, Logged;
    var m, m' := states[n - 1], states[n];
    var w, action := moves[n - 1].0, moves[n - 1].1;
    assert Step(m, w, action, m');
    RunsKeepInv(states, moves, n - 1);
    hide Run;
    if action == Finish {
      HeldSource(m, w);
      FinishedValid(m.front, m.workers[w].source);
      FinishedCells(m.front, m.workers[w].source, m'.front);
    }
    var v :| 0 <= v < |m'.workers| && m'.workers[v] == Stopped;
    if m.workers[v] == Stopped {
      assert m.workers[v] in m.workers;
      if n == 1 {
        FirstIdle(states, moves);
      } else {
        StoppedAt(states, moves, n - 1);
      }
    }
  }

  lemma FirstIdle(states: seq<Machine>, moves: seq<(nat, Action)>)
    requires Run(states, moves)
    ensures forall w <- states[0].workers :: w == Idle
  {
  }

  // ----- The critical sections as code -----

  class Scheduler {
    const graph: Includes
    var cells: Cells
    var ready: seq<nat>
    var left: nat
    var failed: bool

    function Value(): Front
      reads this
    {
      Front(graph, cells, ready, left, failed)
    }

    constructor (f: Front)
      ensures Value() == f
    {
      graph, cells, ready, left, failed := f.graph, f.cells, f.ready, f.left, f.failed;
    }

    method EnqueueReady(s: nat)
      requires s in cells
      modifies this
      ensures Value() == Enqueued(old(Value()), s)
    {
      var cell := cells[s];
      if !failed && cell.remaining == 0 && !cell.claimed && !cell.queued && !cell.parsed {
        cells := cells[s := cell.(queued := true)];
        ready := ready + [s];
      }
    }

    /** Takes the front of the queue; `claimed` tells whether it is to be parsed. */
    method TakeReady() returns (s: nat, claimed: bool)
      requires Valid(Value()) && ready != []
      modifies this
      ensures Value() == Taken(old(Value())) && s == old(ready)[0]
      ensures claimed && s in graph.dependencies && forall d <- graph.dependencies[s] :: IsParsed(cells, d)
    {
      hide Valid;
      TakenValid(Value());
      s := ready[0];
      ready := ready[1..];
      cells := cells[s := cells[s].(queued := false)];
      if cells[s].claimed || cells[s].parsed {
        return s, false;
      }
      cells := cells[s := cells[s].(claimed := true)];
      return s, true;
    }

    /** The end of parse_and_capture: mark the Source parsed and release its dependents. */
    method FinishParse(s: nat)
      requires Valid(Value()) && s in cells && cells[s].claimed && !cells[s].parsed
      modifies this
      ensures s in graph.dependents && (forall d <- graph.dependents[s] :: d in old(cells))
      ensures Value() == Finished(old(Value()), s) && Valid(Value())
    {
      hide Valid, OnlyReleases, Released, Enqueued;
      FinishedValid(Value(), s);
      ghost var start := Value();
      cells := cells[s := cells[s].(parsed := true)];
      if left != 0 {
        left := left - 1;
      }
      var dependents := graph.dependents[s];
      ghost var marked := Value();
      assert marked == Marked(start, s);
      for i := 0 to |dependents|
        invariant Value() == ReleasedAll(marked, dependents[..i])
      {
        assert dependents[..i + 1][..i] == dependents[..i];
        assert dependents[i] in dependents;
        ReleaseOne(dependents[i]);
      }
      TakeAll(dependents);
    }

    method ReleaseOne(d: nat)
      requires d in cells
      modifies this
      ensures Value() == Released(old(Value()), d)
    {
      if cells[d].remaining != 0 {
        cells := cells[d := cells[d].(remaining := cells[d].remaining - 1)];
      }
      EnqueueReady(d);
    }
  }

  // ----- Sources without dependencies: a static partition -----

  /** The first index of worker `i` among `workers` when `count` Sources are split evenly. */
  function Boundary(count: nat, i: nat, workers: nat): nat
    requires workers > 0
  {
    count * i / workers
  }

  lemma BoundaryMonotone(count: nat, i: nat, j: nat, workers: nat)
    requires workers > 0 && i <= j
    ensures Boundary(count, i, workers) <= Boundary(count, j, workers)
  {
    var a, b := count * i, count * j;
    assert a <= b by {
      assert b - a == count * (j - i);
    }
    QuotientMonotone(a, b, workers);
  }

  lemma LessFactor(x: nat, y: nat, d: nat)
    requires d > 0 && x * d < y * d
    ensures x < y
  {
    assert (y - x) * d > 0;
  }

  lemma QuotientMonotone(a: nat, b: nat, d: nat)
    requires d > 0 && a <= b
    ensures a / d <= b / d
  {
    assert a / d * d <= a;
    assert b < (b / d + 1) * d;
    LessFactor(a / d, b / d + 1, d);
  }

  lemma QuotientExact(a: nat, d: nat)
    requires d > 0
    ensures a * d / d == a
  {
    var q := a * d / d;
    assert (a + 1) * d == a * d + d;
    assert q * d <= a * d < (q + 1) * d;
    LessFactor(q, a + 1, d);
    LessFactor(a, q + 1, d);
  }

  lemma {:induction false} SomeWorker(count: nat, workers: nat, index: nat, upTo: nat) returns (i: nat)
    requires workers > 0 && index < Boundary(count, upTo, workers)
    ensures i < upTo && Boundary(count, i, workers) <= index < Boundary(count, i + 1, workers)
    decreases upTo
  {
    assert upTo > 0;
    if Boundary(count, upTo - 1, workers) <= index {
      return upTo - 1;
    }
    i := SomeWorker(count, workers, index, upTo - 1);
  }

  /** The static partition gives every independent Source to exactly one worker. */
  lemma PartitionExact(count: nat, workers: nat, index: nat) returns (i: nat)
    requires workers > 0 && index < count
    ensures i < workers && Boundary(count, i, workers) <= index < Boundary(count, i + 1, workers)
    ensures forall j: nat :: j < workers && Boundary(count, j, workers) <= index < Boundary(count, j + 1, workers) ==> j == i
  {
    QuotientExact(count, workers);
    assert Boundary(count, workers, workers) == count;
    hide Boundary;
    i := SomeWorker(count, workers, index, workers);
    forall j: nat | j < workers && Boundary(count, j, workers) <= index < Boundary(count, j + 1, workers)
      ensures j == i
    {
      if j < i {
        BoundaryMonotone(count, j + 1, i, workers);
      } else if i < j {
        BoundaryMonotone(count, i + 1, j, workers);
      }
    }
  }

  /** The workers of the static branch: the next index of each, who gave up after a
  failed parse or because diagnostics could not be stored, and the indexes parsed so far in the order of their parses. */
  datatype Shares = Shares(next: seq<nat>, stopped: seq<bool>, parsed: seq<nat>)

  /** Worker `w` tries the next Source of its share; nothing is shared with the others. */
  ghost predicate ShareStep(count: nat, m: Shares, w: nat, parses: bool, m': Shares) {
    && w < |m.next| == |m.stopped| && !m.stopped[w]
    && (m.next[w] < Boundary(count, w + 1, |m.next|) || (!parses && m.next[w] > Boundary(count, w, |m.next|)))
    && m' == if parses then Shares(m.next[w := m.next[w] + 1], m.stopped, m.parsed + [m.next[w]])
             else m.(stopped := m.stopped[w := true])
  }

  ghost predicate ShareRun(count: nat, states: seq<Shares>, moves: seq<(nat, bool)>) {
    && |states| == |moves| + 1
    && |states[0].next| == |states[0].stopped| > 0 && states[0].parsed == []
    && (forall w: nat :: w < |states[0].next| ==>
          !states[0].stopped[w] && states[0].next[w] == Boundary(count, w, |states[0].next|))
    && forall i: nat :: i < |moves| ==> ShareStep(count, states[i], moves[i].0, moves[i].1, states[i + 1])
  }

  /** Parsed is exactly what lies before the next index in some share. */
  ghost predicate SharesExact(count: nat, m: Shares) {
    && |m.next| == |m.stopped| > 0 && NoDuplicates(m.parsed)
    && (forall w: nat :: w < |m.next| ==> Boundary(count, w, |m.next|) <= m.next[w] <= Boundary(count, w + 1, |m.next|))
    && (forall i: nat :: i in m.parsed <==>
          exists w: nat :: w < |m.next| && Boundary(count, w, |m.next|) <= i < m.next[w])
  }

  lemma BoundaryEnd(count: nat, w: nat, workers: nat)
    requires workers > 0 && w <= workers
    ensures Boundary(count, w, workers) <= count
  {
    BoundaryMonotone(count, w, workers, workers);
    QuotientExact(count, workers);
  }

  /** The next index of a share was parsed by nobody: it lies in no other share. */
  lemma NextIsNew(count: nat, m: Shares, w: nat)
    requires SharesExact(count, m) && w < |m.next| && m.next[w] < Boundary(count, w + 1, |m.next|)
    ensures m.next[w] !in m.parsed
  {
    hide Boundary, NoDuplicates;
    var n, i := |m.next|, m.next[w];
    BoundaryEnd(count, w + 1, n);
    var owner := PartitionExact(count, n, i);
    assert Boundary(count, w, n) <= i < Boundary(count, w + 1, n);
    forall v: nat | v < n
      ensures Boundary(count, v, n) <= i ==> m.next[v] <= i
    {
      assert m.next[v] <= Boundary(count, v + 1, n);
    }
  }

  lemma ShareStepExact(count: nat, m: Shares, w: nat, parses: bool, m': Shares)
    requires SharesExact(count, m) && ShareStep(count, m, w, parses, m')
    ensures SharesExact(count, m') && |m'.next| == |m.next|
  {
    var n, i := |m.next|, m.next[w];
    if parses {
      NextIsNew(count, m, w);
      DistinctConcat(m.parsed, [i]);
      hide Boundary, NoDuplicates;
      forall k: nat
        ensures k in m'.parsed <==> exists v: nat :: v < n && Boundary(count, v, n) <= k < m'.next[v]
      {
        ParsedNow(count, m, w, k);
      }
    }
  }

  lemma ParsedNow(count: nat, m: Shares, w: nat, k: nat)
    requires SharesExact(count, m) && w < |m.next|
    ensures var n, next := |m.next|, m.next[w := m.next[w] + 1];
            k in m.parsed + [m.next[w]] <==> exists v: nat :: v < n && Boundary(count, v, n) <= k < next[v]
  {
    hide Boundary, NoDuplicates;
    var n, next := |m.next|, m.next[w := m.next[w] + 1];
    forall v: nat | v < n
      ensures Boundary(count, v, n) <= k < next[v] <==>
                Boundary(count, v, n) <= k < m.next[v] || (v == w && k == m.next[w])
    {
    }
    if k == m.next[w] {
      assert Boundary(count, w, n) <= k < next[w];
    }
  }

  lemma {:induction false} ShareRunExact(count: nat, states: seq<Shares>, moves: seq<(nat, bool)>, n: nat)
    requires ShareRun(count, states, moves) && n < |states|
    ensures SharesExact(count, states[n]) && |states[n].next| == |states[0].next|
  {
    hide ShareStep;
    if n == 0 {
      forall w: nat | w < |states[0].next|
        ensures Boundary(count, w, |states[0].next|) <= Boundary(count, w + 1, |states[0].next|)
      {
        BoundaryMonotone(count, w, w + 1, |states[0].next|);
      }
      hide Boundary;
    } else {
      ShareRunExact(count, states, moves, n - 1);
      ShareStepExact(count, states[n - 1], moves[n - 1].0, moves[n - 1].1, states[n]);
    }
  }

  /** Without a lock no independent Source is parsed twice, and when every worker is at
  the end of its share and none gave up, every Source has been parsed. */
  lemma SharesCover(count: nat, states: seq<Shares>, moves: seq<(nat, bool)>, n: nat)
    requires ShareRun(count, states, moves) && n < |states|
    ensures NoDuplicates(states[n].parsed) && forall i <- states[n].parsed :: i < count
    ensures (forall w: nat, m' :: !ShareStep(count, states[n], w, true, m'))
            && (forall stopped <- states[n].stopped :: !stopped) ==>
              forall i: nat :: i < count ==> i in states[n].parsed
  {
    ShareRunExact(count, states, moves, n);
    var m, workers := states[n], |states[n].next|;
    hide ShareRun, Boundary;
    forall i: nat | i in m.parsed
      ensures i < count
    {
      var w: nat :| w < workers && Boundary(count, w, workers) <= i < m.next[w];
      BoundaryEnd(count, w + 1, workers);
    }
    if (forall w: nat, m' :: !ShareStep(count, m, w, true, m')) && forall stopped <- m.stopped :: !stopped {
      forall i: nat | i < count
        ensures i in m.parsed
      {
        var w := PartitionExact(count, workers, i);
        assert m.stopped[w] in m.stopped;
        assert !ShareStep(count, m, w, true, Shares(m.next[w := m.next[w] + 1], m.stopped, m.parsed + [m.next[w]]));
      }
    }
  }

  // ----- Publication -----

  /** The parsed Sources below `bound`, in ascending order of their identity. */
  function Ascending(cells: Cells, bound: nat): (r: seq<nat>)
    ensures forall s: nat :: s in r <==> s < bound && IsParsed(cells, s)
    ensures forall i, j :: 0 <= i < j < |r| ==> r[i] < r[j]
  {
    if bound == 0 then []
    else
      var rest := Ascending(cells, bound - 1);
      assert forall i :: 0 <= i < |rest| ==> rest[i] in rest;
      if IsParsed(cells, bound - 1) then rest + [bound - 1] else rest
  }

  /** The publication loop of rebuild. */
  method PublishOrder(cells: Cells, bound: nat) returns (published: seq<nat>)
    ensures published == Ascending(cells, bound)
  {
    published := [];
    for s := 0 to bound
      invariant published == Ascending(cells, s)
    {
      if s in cells && cells[s].parsed {
        published := published + [s];
      }
    }
  }

  /** Two complete runs publish the same Sources in the same order, whatever
  order the workers finished in. */
  lemma PublicationDeterministic(a: Cells, b: Cells, bound: nat)
    requires a.Keys == b.Keys
    requires (forall s <- a :: a[s].parsed) && (forall s <- b :: b[s].parsed)
    ensures Ascending(a, bound) == Ascending(b, bound)
  {
    assert forall s :: s in a.Keys <==> s in b.Keys;
    if bound > 0 {
      PublicationDeterministic(a, b, bound - 1);
    }
  }
}
