/** Loading the files of a composed project.

A pool of workers loads project configuration files. Each loaded file may refer
to further project files. The pool keeps a cache of every path seen, a queue of
paths to load and one counter of outstanding jobs, all under one mutex; idle
workers sleep on one condition variable. A run is any interleaving of the
critical sections, sleeps, wake-ups and breakdowns of any number of workers.
 */
module CompositionWorkers {
  import opened Collections

  type Path = nat

  datatype Role = Project | Root(kind: nat)

  datatype Item = Item(path: Path, role: Role)

  /** What loading a path yields; a path outside the map fails to load. */
  type Files = map<Path, seq<Item>>

  datatype Node = Node(loaded: bool, items: seq<Item>)

  datatype Pool = Pool(
    cache: map<Path, Node>, queue: seq<Path>, outstanding: int, stop: bool, failed: bool, broken: bool)

  /** Between two critical sections a worker is awake, asleep, loading or gone. A doubting
  one holds the mutex: it has found nothing to do and is about to fall asleep. An
  unwinding one has broken down and let go of the mutex; a failing one has also raised
  the failure flag and is about to notify the others. */
  datatype Worker = Awake | Doubting | Asleep | Loading(path: Path) | Unwinding | Failing | Gone

  datatype Machine = Machine(pool: Pool, workers: seq<Worker>, taken: seq<Path>)

  /** schedule_locked */
  function Scheduled(p: Pool, path: Path): Pool {
    if path in p.cache then p
    else p.(cache := p.cache[path := Node(false, [])], queue := p.queue + [path], outstanding := p.outstanding + 1)
  }

  /** Scheduling every nested project of a configuration. */
  function ScheduledAll(p: Pool, items: seq<Item>): Pool {
    if items == [] then p
    else
      var rest := ScheduledAll(p, items[..|items| - 1]);
      if items[|items| - 1].role == Project then Scheduled(rest, items[|items| - 1].path) else rest
  }

  /** The end of a job: the counter goes down once, and reaching zero stops the pool. */
  function Settled(p: Pool): Pool {
    p.(outstanding := p.outstanding - 1, stop := p.stop || p.outstanding == 1)
  }

  /** The completion section after loading `path`. */
  function Completed(p: Pool, files: Files, path: Path): Pool {
    if path !in files then Settled(p.(failed := true))
    else Settled(ScheduledAll(p.(cache := p.cache[path := Node(true, files[path])]), files[path]))
  }

  function InitialPool(root: Path, items: seq<Item>): Pool {
    var p := ScheduledAll(Pool(map[root := Node(true, items)], [], 0, false, false, false), items);
    p.(stop := p.outstanding == 0)
  }

  // ----- Steps -----

  datatype Action = Take | Doubt | Sleep | Complete | Leave | Throw(reached: nat) | Raise | Notify | Spurious

  /** notify_all */
  function Woken(workers: seq<Worker>): (r: seq<Worker>)
    ensures |r| == |workers|
    ensures forall v: nat :: v < |workers| ==> r[v] == if workers[v].Asleep? then Awake else workers[v]
  {
    seq(|workers|, v requires 0 <= v < |workers| => if workers[v].Asleep? then Awake else workers[v])
  }

  /** A breakdown while the completion section schedules its item number `reached`
  leaves what was scheduled before; number 0 stands for any earlier breakdown. */
  function Interrupted(p: Pool, files: Files, worker: Worker, reached: nat): Pool {
    if worker.Loading? && worker.path in files && 0 < reached <= |files[worker.path]| then
      var q := p.(cache := p.cache[worker.path := Node(true, files[worker.path])]);
      ScheduledAll(q, files[worker.path][..reached - 1])
    else p
  }

  /** What a worker may do. Everything but loading, breaking down before the completion
  section, raising the flag and notifying needs the mutex, which a doubting worker
  holds until it sleeps. */
  ghost predicate Enabled(m: Machine, w: nat, action: Action) {
    && w < |m.workers|
    && (action.Take? || action.Doubt? || action.Complete? || action.Leave? ==> Doubting !in m.workers)
    && (action.Throw? && action.reached > 0 ==> Doubting !in m.workers)
    && match action
       case Take => m.workers[w].Awake? && !m.pool.broken && m.pool.queue != []
       case Doubt => m.workers[w].Awake? && !m.pool.broken && !m.pool.stop && m.pool.queue == []
       case Sleep => m.workers[w].Doubting?
       case Complete => m.workers[w].Loading?
       case Leave => m.workers[w].Awake? && (m.pool.broken || (m.pool.stop && m.pool.queue == []))
       case Throw(_) => m.workers[w].Awake? || m.workers[w].Loading?
       case Raise => m.workers[w].Unwinding?
       case Notify => m.workers[w].Failing?
       case Spurious => m.workers[w].Asleep?
  }

  ghost predicate Step(files: Files, m: Machine, w: nat, action: Action, m': Machine) {
    && Enabled(m, w, action)
    && match action
       case Take =>
         && m'.pool == m.pool.(queue := m.pool.queue[1..])
         && m'.workers == m.workers[w := Loading(m.pool.queue[0])]
         && m'.taken == m.taken + [m.pool.queue[0]]
       case Doubt => m' == m.(workers := m.workers[w := Doubting])
       case Sleep => m' == m.(workers := m.workers[w := Asleep])
       case Complete =>
         && m'.pool == Completed(m.pool, files, m.workers[w].path)
         && m'.workers == Woken(m.workers[w := Awake]) && m'.taken == m.taken
       case Leave => m' == m.(workers := m.workers[w := Gone])
       case Throw(reached) =>
         m' == m.(pool := Interrupted(m.pool, files, m.workers[w], reached), workers := m.workers[w := Unwinding])
       case Raise => m' == m.(pool := m.pool.(broken := true), workers := m.workers[w := Failing])
       case Notify => m' == m.(workers := Woken(m.workers[w := Gone]))
       case Spurious => m' == m.(workers := m.workers[w := Awake])
  }

  function Active(workers: seq<Worker>): nat {
    if workers == [] then 0
    else Active(workers[..|workers| - 1]) + (if workers[|workers| - 1].Loading? then 1 else 0)
  }

  /** Every path is loaded, queued, being loaded, or failed; and which of them were taken. */
  ghost predicate Accounted(files: Files, root: Path, cache: map<Path, Node>, queue: seq<Path>, workers: seq<Worker>,
                            taken: seq<Path>, failed: bool) {
    && NoDuplicates(queue + taken)
    && (forall p :: p in cache <==> p == root || p in queue || p in taken)
    && root !in queue && root !in taken
    && root in cache && cache[root].loaded
    && (forall v: nat, w: nat :: v < w < |workers| && workers[v].Loading? ==> workers[v] != workers[w])
    && (forall w <- workers :: w.Loading? ==> w.path in taken && !cache[w.path].loaded)
    && (forall p <- queue :: !cache[p].loaded)
    && (forall p <- taken :: !cache[p].loaded && Loading(p) !in workers ==> failed)
    && (forall p <- cache :: cache[p].loaded && p != root ==> p in files && cache[p].items == files[p])
  }

  /** The nested projects of every loaded file are known. */
  ghost predicate ClosedCache(cache: map<Path, Node>) {
    forall p <- cache, i <- cache[p].items :: cache[p].loaded && i.role == Project ==> i.path in cache
  }

  /** Nobody has broken down. */
  ghost predicate Intact(m: Machine) {
    !m.pool.broken && Unwinding !in m.workers
  }

  ghost predicate Inv(files: Files, root: Path, m: Machine) {
    Intact(m) ==>
      && Accounted(files, root, m.pool.cache, m.pool.queue, m.workers, m.taken, m.pool.failed)
      && ClosedCache(m.pool.cache)
      && m.pool.outstanding == |m.pool.queue| + Active(m.workers)
      && (m.pool.stop <==> m.pool.outstanding == 0)
      && (Asleep in m.workers || Doubting in m.workers ==> !m.pool.stop && m.pool.queue == [])
      && Failing !in m.workers
  }

  /** Changing what a worker does other than loading leaves the books alone. */
  lemma {:induction false} SameLoading(files: Files, root: Path, cache: map<Path, Node>, queue: seq<Path>,
                                       workers: seq<Worker>, workers': seq<Worker>, taken: seq<Path>, failed: bool)
    requires |workers'| == |workers|
    requires forall v: nat :: v < |workers| && (workers[v].Loading? || workers'[v].Loading?) ==> workers'[v] == workers[v]
    ensures Accounted(files, root, cache, queue, workers, taken, failed) ==>
              Accounted(files, root, cache, queue, workers', taken, failed)
    ensures Active(workers') == Active(workers)
  {
    SameActive(workers, workers');
    forall x: Worker | x.Loading?
      ensures x in workers <==> x in workers'
    {
      assert x in workers ==> exists v: nat :: v < |workers| && workers[v] == x;
      assert x in workers' ==> exists v: nat :: v < |workers| && workers'[v] == x;
    }
  }

  lemma {:induction false} SameActive(workers: seq<Worker>, workers': seq<Worker>)
    requires |workers'| == |workers|
    requires forall v: nat :: v < |workers| ==> workers[v].Loading? == workers'[v].Loading?
    ensures Active(workers') == Active(workers)
  {
    if workers != [] {
      SameActive(workers[..|workers| - 1], workers'[..|workers| - 1]);
    }
  }

  lemma {:induction false} ActiveAfter(workers: seq<Worker>, w: nat, x: Worker)
    requires w < |workers|
    ensures Active(workers[w := x])
         == Active(workers) + (if x.Loading? then 1 else 0) - (if workers[w].Loading? then 1 else 0)
    decreases |workers|
  {
    var last := |workers| - 1;
    if w == last {
      assert workers[w := x][..last] == workers[..last];
    } else {
      assert workers[w := x][..last] == workers[..last][w := x];
      ActiveAfter(workers[..last], w, x);
    }
  }

  lemma WorkerKept(workers: seq<Worker>, w: nat, x: Worker, kept: Worker)
    requires w < |workers|
    ensures kept in workers && workers[w] != kept ==> kept in workers[w := x]
    ensures kept in workers[w := x] && kept != x ==> kept in workers
    ensures x in workers[w := x]
  {
    var after := workers[w := x];
    assert after[w] == x;
    if kept in workers && workers[w] != kept {
      var v :| 0 <= v < |workers| && workers[v] == kept;
      assert after[v] == kept;
    }
    if kept in after && kept != x {
      var v :| 0 <= v < |after| && after[v] == kept;
      assert workers[v] == kept;
    }
  }

  lemma TakeAccounted(files: Files, root: Path, cache: map<Path, Node>, queue: seq<Path>, workers: seq<Worker>,
                      taken: seq<Path>, failed: bool, w: nat)
    requires Accounted(files, root, cache, queue, workers, taken, failed)
    requires queue != [] && w < |workers| && workers[w].Awake?
    ensures Accounted(files, root, cache, queue[1..], workers[w := Loading(queue[0])], taken + [queue[0]], failed)
  {
    var p := queue[0];
    var workers' := workers[w := Loading(p)];
    assert queue == [p] + queue[1..];
    TakenDistinct(queue, taken);
    assert Loading(p) !in workers;
    forall x
      ensures x in queue <==> x == p || x in queue[1..]
      ensures x in taken + [p] <==> x == p || x in taken
    {
    }
    forall x: Worker
      ensures x in workers && !x.Awake? ==> x in workers'
      ensures x in workers' ==> x in workers || x == Loading(p)
    {
      WorkerKept(workers, w, Loading(p), x);
    }
    WorkerKept(workers, w, Loading(p), Gone);
    forall v: nat, u: nat | v < u < |workers'| && workers'[v].Loading?
      ensures workers'[v] != workers'[u]
    {
      assert workers[v] in workers && workers[u] in workers;
    }
  }

  lemma TakenDistinct(queue: seq<Path>, taken: seq<Path>)
    requires NoDuplicates(queue + taken) && queue != []
    ensures NoDuplicates(queue[1..] + (taken + [queue[0]]))
    ensures queue[0] !in taken && queue[0] !in queue[1..]
  {
    assert queue + taken == [queue[0]] + (queue[1..] + taken);
    DistinctTail(queue + taken, queue[0], queue[1..] + taken);
    assert queue[1..] + (taken + [queue[0]]) == (queue[1..] + taken) + [queue[0]];
    DistinctConcat(queue[1..] + taken, [queue[0]]);
  }

  /** One job finishes: its worker is free again, and its path is loaded or has failed. */
  lemma SettleAccounted(files: Files, root: Path, cache: map<Path, Node>, queue: seq<Path>, workers: seq<Worker>,
                        taken: seq<Path>, failed: bool, w: nat)
    requires Accounted(files, root, cache, queue, workers, taken, failed)
    requires w < |workers| && workers[w].Loading?
    ensures workers[w].path in cache && workers[w].path != root
    ensures var p := workers[w].path;
            && Accounted(files, root, cache, queue, workers[w := Awake], taken, true)
            && (p in files ==>
                  Accounted(files, root, cache[p := Node(true, files[p])], queue, workers[w := Awake], taken, failed))
  {
    var p := workers[w].path;
    assert workers[w] in workers;
    var after := workers[w := Awake];
    forall v: nat | v < |workers|
      ensures after[v] != Loading(p)
    {
      assert v < w ==> workers[v] != workers[w];
      assert w < v ==> workers[w] != workers[v];
    }
    forall x: Worker
      ensures x in workers && x != Loading(p) ==> x in workers[w := Awake]
      ensures x in workers[w := Awake] && x != Awake ==> x in workers && x != Loading(p)
    {
      WorkerKept(workers, w, Awake, x);
    }
    assert forall x <- queue :: x !in taken by { QueueNotTaken(queue, taken); }
  }

  lemma QueueNotTaken(queue: seq<Path>, taken: seq<Path>)
    requires NoDuplicates(queue + taken)
    ensures forall x <- queue :: x !in taken
  {
    forall i, j | 0 <= i < |queue| && 0 <= j < |taken|
      ensures queue[i] != taken[j]
    {
      assert (queue + taken)[i] == queue[i] && (queue + taken)[|queue| + j] == taken[j];
    }
  }

  lemma {:induction false} ScheduleAllKeeps(files: Files, root: Path, p: Pool, items: seq<Item>, workers: seq<Worker>,
                                            taken: seq<Path>)
    requires Accounted(files, root, p.cache, p.queue, workers, taken, p.failed)
    ensures var r := ScheduledAll(p, items);
            && Accounted(files, root, r.cache, r.queue, workers, taken, r.failed)
            && r.outstanding - |r.queue| == p.outstanding - |p.queue|
            && r.failed == p.failed && r.stop == p.stop && r.broken == p.broken
            && (forall x <- p.cache :: x in r.cache && r.cache[x] == p.cache[x])
            && (forall x <- r.cache :: x !in p.cache ==> r.cache[x] == Node(false, []))
            && (forall i <- items :: i.role == Project ==> i.path in r.cache)
            && |r.queue| >= |p.queue|
  {
    hide Accounted;
    if items != [] {
      var last := |items| - 1;
      assert items == items[..last] + [items[last]];
      ScheduleAllKeeps(files, root, p, items[..last], workers, taken);
      var rest := ScheduledAll(p, items[..last]);
      if items[last].role == Project && items[last].path !in rest.cache {
        ScheduleAccounted(files, root, rest.cache, rest.queue, workers, taken, rest.failed, items[last].path);
      }
    }
  }

  lemma ScheduleAccounted(files: Files, root: Path, cache: map<Path, Node>, queue: seq<Path>, workers: seq<Worker>,
                          taken: seq<Path>, failed: bool, path: Path)
    requires Accounted(files, root, cache, queue, workers, taken, failed) && path !in cache
    ensures Accounted(files, root, cache[path := Node(false, [])], queue + [path], workers, taken, failed)
  {
    QueuedDistinct(queue, taken, path);
    forall x
      ensures x in queue + [path] <==> x in queue || x == path
    {
    }
  }

  lemma QueuedDistinct(queue: seq<Path>, taken: seq<Path>, path: Path)
    requires NoDuplicates(queue + taken) && path !in queue && path !in taken
    ensures NoDuplicates((queue + [path]) + taken)
  {
    var all, more := queue + taken, (queue + [path]) + taken;
    forall i, j | 0 <= i < j < |more|
      ensures more[i] != more[j]
    {
      assert i < |queue| ==> all[i] == more[i];
      assert i > |queue| ==> all[i - 1] == more[i];
      assert j < |queue| ==> all[j] == more[j];
      assert j > |queue| ==> all[j - 1] == more[j];
      assert path !in all;
    }
  }

  lemma ScheduleAllClosed(files: Files, root: Path, p: Pool, path: Path, items: seq<Item>, workers: seq<Worker>,
                          taken: seq<Path>)
    requires Accounted(files, root, p.cache, p.queue, workers, taken, p.failed)
    requires path in p.cache && p.cache[path] == Node(true, items)
    requires forall x <- p.cache, i <- p.cache[x].items :: x != path && p.cache[x].loaded && i.role == Project ==> i.path in p.cache
    ensures ClosedCache(ScheduledAll(p, items).cache)
  {
    ScheduleAllKeeps(files, root, p, items, workers, taken);
    hide Accounted, ScheduledAll;
  }

  /** Every step keeps the books: the counter is queued plus active jobs, the pool is
  stopped exactly when it is zero, and nobody sleeps or doubts when there is work. */
  lemma StepKeepsInv(files: Files, root: Path, m: Machine, w: nat, action: Action, m': Machine)
    requires Inv(files, root, m) && Step(files, m, w, action, m')
    ensures Inv(files, root, m')
  {
    if Intact(m) {
      hide Accounted, ClosedCache;
      match action
      case Take =>
        TakeAccounted(files, root, m.pool.cache, m.pool.queue, m.workers, m.taken, m.pool.failed, w);
        ActiveAfter(m.workers, w, Loading(m.pool.queue[0]));
        OthersAsBefore(m.workers, w, Loading(m.pool.queue[0]));
      case Complete => CompleteKeepsInv(files, root, m, w, m');
      case Doubt => IdleKeepsInv(files, root, m, w, Doubting, m');
      case Sleep => IdleKeepsInv(files, root, m, w, Asleep, m');
      case Leave => IdleKeepsInv(files, root, m, w, Gone, m');
      case Spurious => IdleKeepsInv(files, root, m, w, Awake, m');
      case Throw(_) => assert m'.workers[w] == Unwinding;
      case Raise => Present(m.workers, w);
      case Notify => Present(m.workers, w);
    } else {
      assert !Intact(m') by { BreakdownStays(files, m, w, action, m'); }
    }
  }

  lemma Present(workers: seq<Worker>, w: nat)
    requires w < |workers|
    ensures workers[w] in workers
  {
  }

  lemma OthersAsBefore(workers: seq<Worker>, w: nat, x: Worker)
    requires w < |workers|
    ensures forall y :: y in workers[w := x] ==> y == x || y in workers
  {
    forall y | y in workers[w := x]
      ensures y == x || y in workers
    {
      WorkerKept(workers, w, x, y);
    }
  }

  lemma IdleKeepsInv(files: Files, root: Path, m: Machine, w: nat, x: Worker, m': Machine)
    requires Inv(files, root, m) && Intact(m) && w < |m.workers|
    requires !m.workers[w].Loading? && !x.Loading? && !x.Failing? && !x.Unwinding?
    requires x.Doubting? || x.Asleep? ==> !m.pool.stop && m.pool.queue == []
    requires m' == m.(workers := m.workers[w := x])
    ensures Inv(files, root, m')
  {
    hide Accounted, ClosedCache;
    SameLoading(files, root, m.pool.cache, m.pool.queue, m.workers, m'.workers, m.taken, m.pool.failed);
    OthersAsBefore(m.workers, w, x);
  }

  lemma {:induction false} ScheduledFlags(p: Pool, items: seq<Item>)
    ensures var r := ScheduledAll(p, items);
            r.broken == p.broken && r.stop == p.stop && r.failed == p.failed
  {
    if items != [] {
      ScheduledFlags(p, items[..|items| - 1]);
    }
  }

  lemma InterruptedFlags(p: Pool, files: Files, worker: Worker, reached: nat)
    ensures var r := Interrupted(p, files, worker, reached);
            r.broken == p.broken && r.stop == p.stop && r.failed == p.failed
  {
    if worker.Loading? && worker.path in files && 0 < reached <= |files[worker.path]| {
      var q := p.(cache := p.cache[worker.path := Node(true, files[worker.path])]);
      ScheduledFlags(q, files[worker.path][..reached - 1]);
    }
  }

  lemma BrokenStays(files: Files, m: Machine, w: nat, action: Action, m': Machine)
    requires Step(files, m, w, action, m') && m.pool.broken
    ensures m'.pool.broken
  {
    if action.Throw? {
      InterruptedFlags(m.pool, files, m.workers[w], action.reached);
    }
    hide Interrupted;
    if action.Complete? && m.workers[w].path in files {
      var path := m.workers[w].path;
      ScheduledFlags(m.pool.(cache := m.pool.cache[path := Node(true, files[path])]), files[path]);
    }
  }

  /** Only raising the flag breaks the pool. */
  lemma BrokenByRaise(files: Files, m: Machine, w: nat, action: Action, m': Machine)
    requires Step(files, m, w, action, m') && !m.pool.broken && m'.pool.broken
    ensures action.Raise?
  {
    if action.Throw? {
      InterruptedFlags(m.pool, files, m.workers[w], action.reached);
    }
    hide Interrupted;
    if action.Complete? && m.workers[w].path in files {
      var path := m.workers[w].path;
      ScheduledFlags(m.pool.(cache := m.pool.cache[path := Node(true, files[path])]), files[path]);
    }
  }

  lemma BreakdownStays(files: Files, m: Machine, w: nat, action: Action, m': Machine)
    requires Step(files, m, w, action, m') && !Intact(m)
    ensures !Intact(m')
  {
    hide Interrupted, Completed;
    if m.pool.broken {
      BrokenStays(files, m, w, action, m');
    } else if !action.Raise? {
      var v: nat :| v < |m.workers| && m.workers[v] == Unwinding;
      assert m'.workers[v] == Unwinding;
    }
  }

  lemma CompleteKeepsInv(files: Files, root: Path, m: Machine, w: nat, m': Machine)
    requires Intact(m) && Inv(files, root, m) && Step(files, m, w, Complete, m')
    ensures Inv(files, root, m')
  {
    hide Accounted;
    var p, path := m.pool, m.workers[w].path;
    var free := m.workers[w := Awake];
    SettleAccounted(files, root, p.cache, p.queue, m.workers, m.taken, p.failed, w);
    ActiveAfter(m.workers, w, Awake);
    ActivePositive(m.workers, w);
    SomeoneWoken(m.workers, w);
    if path in files {
      var q := p.(cache := p.cache[path := Node(true, files[path])]);
      ScheduleAllKeeps(files, root, q, files[path], free, m.taken);
      ScheduleAllClosed(files, root, q, path, files[path], free, m.taken);
      hide ClosedCache, ScheduledAll;
    }
    SameLoading(files, root, m'.pool.cache, m'.pool.queue, free, m'.workers, m.taken, m'.pool.failed);
  }

  /** After a notification nobody sleeps. */
  lemma SomeoneWoken(workers: seq<Worker>, w: nat)
    requires w < |workers|
    ensures Asleep !in Woken(workers[w := Awake]) && Asleep !in Woken(workers[w := Gone])
    ensures forall x :: x in Woken(workers[w := Awake]) ==> x == Awake || x in workers
    ensures forall x :: x in Woken(workers[w := Gone]) ==> x == Awake || x == Gone || x in workers
  {
    forall x | x in Woken(workers[w := Awake])
      ensures x != Asleep && (x == Awake || x in workers)
    {
      var v :| 0 <= v < |workers| && Woken(workers[w := Awake])[v] == x;
    }
    forall x | x in Woken(workers[w := Gone])
      ensures x != Asleep && (x == Awake || x == Gone || x in workers)
    {
      var v :| 0 <= v < |workers| && Woken(workers[w := Gone])[v] == x;
    }
  }

  lemma {:induction false} ActivePositive(workers: seq<Worker>, w: nat)
    requires w < |workers| && workers[w].Loading?
    ensures Active(workers) > 0
    decreases |workers|
  {
    if w < |workers| - 1 {
      ActivePositive(workers[..|workers| - 1], w);
    }
  }

  // ----- Whole runs -----

  ghost predicate Start(root: Path, items: seq<Item>, m: Machine) {
    && m.pool == InitialPool(root, items) && m.pool.outstanding != 0 && m.taken == []
    && (forall w <- m.workers :: w == Awake)
  }

  ghost predicate Run(files: Files, root: Path, items: seq<Item>, states: seq<Machine>, moves: seq<(nat, Action)>) {
    && |states| == |moves| + 1 && Start(root, items, states[0])
    && forall i: nat :: i < |moves| ==> Step(files, states[i], moves[i].0, moves[i].1, states[i + 1])
  }

  lemma {:induction false} NoneActive(workers: seq<Worker>)
    requires forall w <- workers :: !w.Loading?
    ensures Active(workers) == 0
  {
    if workers != [] {
      var last := |workers| - 1;
      assert workers[last] in workers;
      assert forall w <- workers[..last] :: w in workers;
      NoneActive(workers[..last]);
    }
  }

  lemma StartInv(files: Files, root: Path, items: seq<Item>, m: Machine)
    requires Start(root, items, m)
    ensures Inv(files, root, m)
  {
    var p := Pool(map[root := Node(true, items)], [], 0, false, false, false);
    NoneActive(m.workers);
    forall w: nat | w < |m.workers|
      ensures m.workers[w] == Awake
    {
      assert m.workers[w] in m.workers;
    }
    assert Accounted(files, root, p.cache, p.queue, m.workers, [], false);
    ScheduleAllKeeps(files, root, p, items, m.workers, []);
    ScheduleAllClosed(files, root, p, root, items, m.workers, []);
    hide Accounted, ScheduledAll, ClosedCache;
  }

  lemma {:induction false} RunsKeepInv(files: Files, root: Path, items: seq<Item>, states: seq<Machine>,
                                       moves: seq<(nat, Action)>, i: nat)
    requires Run(files, root, items, states, moves) && i < |states|
    ensures Inv(files, root, states[i])
  {
    hide Inv, Step;
    if i == 0 {
      StartInv(files, root, items, states[0]);
    } else {
      RunsKeepInv(files, root, items, states, moves, i - 1);
      StepKeepsInv(files, root, states[i - 1], moves[i - 1].0, moves[i - 1].1, states[i]);
    }
  }

  /** What breakdowns leave alone: nothing is queued or taken twice, and all of it is in the cache. */
  ghost predicate Listed(root: Path, p: Pool, taken: seq<Path>) {
    && NoDuplicates(p.queue + taken) && root in p.cache
    && (forall x <- p.queue :: x in p.cache && x != root)
    && (forall x <- taken :: x in p.cache && x != root)
  }

  ghost predicate LoadsTaken(workers: seq<Worker>, taken: seq<Path>) {
    forall w <- workers :: w.Loading? ==> w.path in taken
  }

  lemma ScheduleListed(root: Path, p: Pool, taken: seq<Path>, path: Path)
    requires Listed(root, p, taken)
    ensures Listed(root, Scheduled(p, path), taken)
  {
    if path !in p.cache {
      QueuedDistinct(p.queue, taken, path);
      hide NoDuplicates;
    }
  }

  lemma {:induction false} ScheduleAllListed(root: Path, p: Pool, taken: seq<Path>, items: seq<Item>)
    requires Listed(root, p, taken)
    ensures Listed(root, ScheduledAll(p, items), taken)
  {
    hide Listed, Scheduled;
    if items != [] {
      ScheduleAllListed(root, p, taken, items[..|items| - 1]);
      ScheduleListed(root, ScheduledAll(p, items[..|items| - 1]), taken, items[|items| - 1].path);
    }
  }

  lemma LoadListed(root: Path, p: Pool, taken: seq<Path>, path: Path, node: Node, items: seq<Item>)
    requires Listed(root, p, taken) && path in taken
    ensures Listed(root, ScheduledAll(p.(cache := p.cache[path := node]), items), taken)
  {
    ScheduleAllListed(root, p.(cache := p.cache[path := node]), taken, items);
  }

  lemma StepListed(files: Files, root: Path, m: Machine, w: nat, action: Action, m': Machine)
    requires Step(files, m, w, action, m') && Listed(root, m.pool, m.taken) && LoadsTaken(m.workers, m.taken)
    ensures Listed(root, m'.pool, m'.taken)
  {
    hide NoDuplicates, ScheduledAll, Woken;
    Present(m.workers, w);
    if action.Take? {
      TakenDistinct(m.pool.queue, m.taken);
    } else if action.Complete? && m.workers[w].path in files {
      var path := m.workers[w].path;
      hide Listed;
      LoadListed(root, m.pool, m.taken, path, Node(true, files[path]), files[path]);
      SettledListed(root, ScheduledAll(m.pool.(cache := m.pool.cache[path := Node(true, files[path])]), files[path]), m.taken);
    } else if action.Throw? && m.workers[w].Loading? && m.workers[w].path in files
              && 0 < action.reached <= |files[m.workers[w].path]| {
      var path := m.workers[w].path;
      hide Listed;
      LoadListed(root, m.pool, m.taken, path, Node(true, files[path]), files[path][..action.reached - 1]);
    }
  }

  lemma SettledListed(root: Path, p: Pool, taken: seq<Path>)
    requires Listed(root, p, taken)
    ensures Listed(root, Settled(p), taken)
  {
    hide NoDuplicates;
  }

  lemma StepLoadsTaken(files: Files, m: Machine, w: nat, action: Action, m': Machine)
    requires Step(files, m, w, action, m') && LoadsTaken(m.workers, m.taken)
    ensures LoadsTaken(m'.workers, m'.taken)
  {
    hide Interrupted, Completed;
    forall x <- m'.workers | x.Loading?
      ensures x.path in m'.taken
    {
      var v: nat :| v < |m'.workers| && m'.workers[v] == x;
      Present(m.workers, v);
    }
  }

  /** Breakdown or not, no path is ever taken twice, and the root is never loaded again. */
  lemma {:induction false} LoadedAtMostOnce(files: Files, root: Path, items: seq<Item>, states: seq<Machine>,
                                            moves: seq<(nat, Action)>, n: nat)
    requires Run(files, root, items, states, moves) && n < |states|
    ensures Listed(root, states[n].pool, states[n].taken) && LoadsTaken(states[n].workers, states[n].taken)
    ensures NoDuplicates(states[n].taken) && root !in states[n].taken
    decreases n
  {
    if n == 0 {
      ScheduleAllListed(root, Pool(map[root := Node(true, items)], [], 0, false, false, false), [], items);
      hide ScheduledAll;
    } else {
      var m, m', w, action := states[n - 1], states[n], moves[n - 1].0, moves[n - 1].1;
      LoadedAtMostOnce(files, root, items, states, moves, n - 1);
      assert Step(files, m, w, action, m');
      hide Run, Listed, LoadsTaken, NoDuplicates, Step;
      StepListed(files, root, m, w, action, m');
      StepLoadsTaken(files, m, w, action, m');
      ListedTaken(root, m'.pool, m'.taken);
    }
  }

  lemma ListedTaken(root: Path, p: Pool, taken: seq<Path>)
    requires Listed(root, p, taken)
    ensures NoDuplicates(taken) && root !in taken
  {
    forall a, b | 0 <= a < b < |taken|
      ensures taken[a] != taken[b]
    {
      assert (p.queue + taken)[|p.queue| + a] == taken[a] && (p.queue + taken)[|p.queue| + b] == taken[b];
    }
  }

  /** As long as nobody has broken down the counter is exact. */
  lemma OutstandingExact(files: Files, root: Path, items: seq<Item>, states: seq<Machine>, moves: seq<(nat, Action)>,
                         n: nat)
    requires Run(files, root, items, states, moves) && n < |states| && Intact(states[n])
    ensures states[n].pool.outstanding == |states[n].pool.queue| + Active(states[n].workers)
    ensures states[n].pool.stop <==> states[n].pool.outstanding == 0
  {
    RunsKeepInv(files, root, items, states, moves, n);
  }

  // ----- Progress -----

  /** Everybody who is left sleeps: nothing happens any more, unless a sleeper wakes for no reason. */
  ghost predicate Stuck(m: Machine) {
    Asleep in m.workers && forall w <- m.workers :: w.Asleep? || w.Gone?
  }

  /** In a pool that is not broken somebody can move as long as somebody is left. */
  lemma NoDeadlock(files: Files, root: Path, m: Machine, w: nat) returns (v: nat, action: Action)
    requires Inv(files, root, m) && !m.pool.broken && w < |m.workers| && m.workers[w] != Gone
    ensures Enabled(m, v, action) && !action.Throw? && !action.Spurious?
  {
    hide Accounted, ClosedCache;
    assert m.workers[w] in m.workers;
    if u: nat :| u < |m.workers| && m.workers[u].Unwinding? {
      return u, Raise;
    }
    if u: nat :| u < |m.workers| && m.workers[u].Doubting? {
      return u, Sleep;
    }
    if u: nat :| u < |m.workers| && m.workers[u].Loading? {
      return u, Complete;
    }
    NoneActive(m.workers);
    if m.workers[w].Awake? {
      return w, if m.pool.queue != [] then Take else if m.pool.stop then Leave else Doubt;
    }
    assert false;
  }

  /** A broken pool in which every sleeper will still be notified. */
  ghost predicate Draining(m: Machine) {
    && m.pool.broken
    && Doubting !in m.workers
    && (Asleep in m.workers ==> Failing in m.workers)
  }

  /** A breakdown that nobody doubts through is heard by everyone. */
  lemma FailureHeard(files: Files, m: Machine, w: nat, m': Machine)
    requires Step(files, m, w, Raise, m') && Doubting !in m.workers
    ensures Draining(m')
  {
    OthersAsBefore(m.workers, w, Failing);
    assert m'.workers[w] == Failing;
  }

  lemma DrainingStays(files: Files, m: Machine, w: nat, action: Action, m': Machine)
    requires Draining(m) && Step(files, m, w, action, m')
    ensures Draining(m')
  {
    BrokenStays(files, m, w, action, m');
    Present(m.workers, w);
    match action
    case Take =>
    case Doubt =>
    case Sleep =>
    case Complete => SomeoneWoken(m.workers, w);
    case Notify => SomeoneWoken(m.workers, w);
    case Throw(_) =>
      OthersAsBefore(m.workers, w, Unwinding);
      WorkerKept(m.workers, w, Unwinding, Failing);
    case Raise =>
      OthersAsBefore(m.workers, w, Failing);
      assert m'.workers[w] == Failing;
    case Leave =>
      OthersAsBefore(m.workers, w, Gone);
      WorkerKept(m.workers, w, Gone, Failing);
    case Spurious =>
      OthersAsBefore(m.workers, w, Awake);
      WorkerKept(m.workers, w, Awake, Failing);
  }

  /** In a draining pool somebody can move as long as somebody is left. */
  lemma DrainingMoves(m: Machine, w: nat) returns (v: nat, action: Action)
    requires Draining(m) && w < |m.workers| && m.workers[w] != Gone
    ensures Enabled(m, v, action) && !action.Throw? && !action.Spurious?
  {
    assert m.workers[w] in m.workers;
    if u: nat :| u < |m.workers| && m.workers[u].Failing? {
      return u, Notify;
    }
    return w, match m.workers[w] case Loading(_) => Complete case Unwinding => Raise case _ => Leave;
  }

  /** A run that has come to its end: nobody has anything left to do of his own accord. */
  ghost predicate Ended(m: Machine) {
    forall w: nat, action :: Enabled(m, w, action) ==> action.Throw? || action.Spurious?
  }

  /** No flag was first raised while a worker had found nothing to do and was not asleep yet. */
  ghost predicate Heard(states: seq<Machine>, moves: seq<(nat, Action)>) {
    forall f: nat :: f < |moves| < |states| && moves[f].1.Raise? && !states[f].pool.broken ==> Doubting !in states[f].workers
  }

  lemma {:induction false} DrainingSince(files: Files, root: Path, items: seq<Item>, states: seq<Machine>,
                                         moves: seq<(nat, Action)>, n: nat)
    requires Run(files, root, items, states, moves) && Heard(states, moves) && n < |states|
    requires states[n].pool.broken
    ensures Draining(states[n])
    decreases n
  {
    hide Draining, Step;
    if n == 0 {
      StartIntact(root, items, states[0]);
    } else {
      var m, m', w, action := states[n - 1], states[n], moves[n - 1].0, moves[n - 1].1;
      assert Step(files, m, w, action, m');
      if m.pool.broken {
        DrainingSince(files, root, items, states, moves, n - 1);
        DrainingStays(files, m, w, action, m');
      } else {
        BrokenByRaise(files, m, w, action, m');
        FailureHeard(files, m, w, m');
      }
    }
  }

  lemma StartIntact(root: Path, items: seq<Item>, m: Machine)
    requires Start(root, items, m)
    ensures Intact(m)
  {
    ScheduledFlags(Pool(map[root := Node(true, items)], [], 0, false, false, false), items);
    hide ScheduledAll;
  }

  /** Unless a first breakdown is announced to a worker that is about to fall asleep, a run
  comes to its end exactly when every worker has left, so that join returns. */
  lemma EveryoneLeaves(files: Files, root: Path, items: seq<Item>, states: seq<Machine>, moves: seq<(nat, Action)>)
    requires Run(files, root, items, states, moves) && Heard(states, moves)
    ensures Ended(states[|moves|]) <==> forall w <- states[|moves|].workers :: w.Gone?
  {
    var m := states[|moves|];
    if w: nat :| w < |m.workers| && m.workers[w] != Gone {
      Present(m.workers, w);
      var v: nat, action: Action;
      if m.pool.broken {
        DrainingSince(files, root, items, states, moves, |moves|);
        v, action := DrainingMoves(m, w);
      } else {
        RunsKeepInv(files, root, items, states, moves, |moves|);
        v, action := NoDeadlock(files, root, m, w);
      }
      hide Enabled;
      assert !Ended(m);
    } else {
      forall w: nat, action | Enabled(m, w, action)
        ensures false
      {
        Present(m.workers, w);
      }
    }
  }

  /** Steps from one state to another. */
  ghost predicate Leads(files: Files, states: seq<Machine>, moves: seq<(nat, Action)>, from: Machine, to: Machine) {
    && |states| == |moves| + 1 && states[0] == from && states[|moves|] == to
    && forall i: nat :: i < |moves| ==> Step(files, states[i], moves[i].0, moves[i].1, states[i + 1])
  }

  lemma {:induction false} DrainingLeads(files: Files, states: seq<Machine>, moves: seq<(nat, Action)>, from: Machine,
                                         to: Machine)
    requires Leads(files, states, moves, from, to) && Draining(from)
    ensures Draining(to) && !Stuck(to)
    decreases |moves|
  {
    hide Step;
    if moves == [] {
      FailingNotStuck(from);
    } else {
      var n := |moves| - 1;
      DrainingLeads(files, states[..n + 1], moves[..n], from, states[n]);
      assert Step(files, states[n], moves[n].0, moves[n].1, states[n + 1]);
      DrainingStays(files, states[n], moves[n].0, moves[n].1, to);
      FailingNotStuck(to);
    }
  }

  lemma FailingNotStuck(m: Machine)
    requires Draining(m)
    ensures !Stuck(m)
  {
  }

  ghost predicate MayHang(files: Files, m: Machine) {
    exists states, moves, to :: Leads(files, states, moves, m, to) && Stuck(to)
  }

  lemma HangsLater(files: Files, m: Machine, w: nat, action: Action, m': Machine)
    requires Step(files, m, w, action, m') && MayHang(files, m')
    ensures MayHang(files, m)
  {
    hide Step, Stuck;
    var states: seq<Machine>, moves: seq<(nat, Action)>, to: Machine :| Leads(files, states, moves, m', to) && Stuck(to);
    var states2: seq<Machine> := [m] + states;
    var moves2: seq<(nat, Action)> := [(w, action)] + moves;
    forall i: nat | i < |moves2|
      ensures Step(files, states2[i], moves2[i].0, moves2[i].1, states2[i + 1])
    {
      if i > 0 {
        assert states2[i] == states[i - 1] && moves2[i] == moves[i - 1] && states2[i + 1] == states[i];
        var j: nat := i - 1;
        assert Step(files, states[j], (moves[j]).0, (moves[j]).1, states[j + 1]);
      }
    }
    assert Leads(files, states2, moves2, m, to);
  }

  /** Steps until a doubting worker is the last one left. */
  function Errands(workers: seq<Worker>): nat {
    if workers == [] then 0
    else Errands(workers[..|workers| - 1]) + Errand(workers[|workers| - 1])
  }

  function Errand(w: Worker): nat {
    match w
    case Loading(_) => 3
    case Unwinding => 2
    case Failing => 1
    case _ => 0
  }

  lemma {:induction false} ErrandsAfter(workers: seq<Worker>, w: nat, x: Worker)
    requires w < |workers| && Errand(x) < Errand(workers[w])
    ensures Errands(workers[w := x]) < Errands(workers)
    decreases |workers|
  {
    var last := |workers| - 1;
    if w == last {
      assert workers[w := x][..last] == workers[..last];
    } else {
      assert workers[w := x][..last] == workers[..last][w := x];
      ErrandsAfter(workers[..last], w, x);
    }
  }

  lemma {:induction false} ErrandsWoken(workers: seq<Worker>)
    ensures Errands(Woken(workers)) == Errands(workers)
  {
    if workers != [] {
      var last := |workers| - 1;
      assert Woken(workers)[..last] == Woken(workers[..last]);
      ErrandsWoken(workers[..last]);
    }
  }

  function AwakeCount(workers: seq<Worker>): nat {
    if workers == [] then 0
    else AwakeCount(workers[..|workers| - 1]) + if workers[|workers| - 1].Awake? then 1 else 0
  }

  lemma {:induction false} AwakeAfter(workers: seq<Worker>, w: nat)
    requires w < |workers| && workers[w].Awake?
    ensures AwakeCount(workers[w := Gone]) < AwakeCount(workers)
    decreases |workers|
  {
    var last := |workers| - 1;
    if w == last {
      assert workers[w := Gone][..last] == workers[..last];
    } else {
      assert workers[w := Gone][..last] == workers[..last][w := Gone];
      AwakeAfter(workers[..last], w);
    }
  }

  /** One sleeper, and everybody else can only leave. */
  lemma {:induction false} LastSleeper(files: Files, m: Machine)
    requires m.pool.broken && Asleep in m.workers
    requires forall w <- m.workers :: w.Asleep? || w.Gone? || w.Awake?
    ensures MayHang(files, m)
    decreases AwakeCount(m.workers)
  {
    if w: nat :| w < |m.workers| && m.workers[w].Awake? {
      var m' := m.(workers := m.workers[w := Gone]);
      AwakeAfter(m.workers, w);
      OthersAsBefore(m.workers, w, Gone);
      WorkerKept(m.workers, w, Gone, Asleep);
      LastSleeper(files, m');
      hide MayHang;
      assert Step(files, m, w, Leave, m');
      HangsLater(files, m, w, Leave, m');
    } else {
      assert Leads(files, [m], [], m, m);
      assert Stuck(m);
    }
  }

  /** A worker that doubts while the flag is raised may miss every notification. */
  lemma {:induction false} DoubterHangs(files: Files, m: Machine, d: nat)
    requires m.pool.broken && d < |m.workers| && m.workers[d].Doubting?
    requires forall v: nat :: v < |m.workers| && m.workers[v].Doubting? ==> v == d
    requires Asleep in m.workers ==> Failing in m.workers
    ensures MayHang(files, m)
    decreases Errands(m.workers)
  {
    hide MayHang;
    if w: nat :| w < |m.workers| && m.workers[w].Failing? {
      var m' := m.(workers := Woken(m.workers[w := Gone]));
      ErrandsAfter(m.workers, w, Gone);
      ErrandsWoken(m.workers[w := Gone]);
      SomeoneWoken(m.workers, w);
      DoubterHangs(files, m', d);
      assert Step(files, m, w, Notify, m');
      HangsLater(files, m, w, Notify, m');
    } else if w: nat :| w < |m.workers| && m.workers[w].Loading? {
      var m' := m.(workers := m.workers[w := Unwinding]);
      ErrandsAfter(m.workers, w, Unwinding);
      OthersAsBefore(m.workers, w, Unwinding);
      DoubterHangs(files, m', d);
      assert Step(files, m, w, Throw(0), m');
      HangsLater(files, m, w, Throw(0), m');
    } else if w: nat :| w < |m.workers| && m.workers[w].Unwinding? {
      var m' := m.(workers := m.workers[w := Failing]);
      ErrandsAfter(m.workers, w, Failing);
      assert m'.workers[w] == Failing;
      DoubterHangs(files, m', d);
      assert m.pool.(broken := true) == m.pool;
      assert Step(files, m, w, Raise, m');
      HangsLater(files, m, w, Raise, m');
    } else {
      var m' := m.(workers := m.workers[d := Asleep]);
      OthersAsBefore(m.workers, d, Asleep);
      assert m'.workers[d] == Asleep;
      OnlyDoubter(m.workers, d);
      LastSleeper(files, m');
      assert Step(files, m, d, Sleep, m');
      HangsLater(files, m, d, Sleep, m');
    }
  }

  lemma OnlyDoubter(workers: seq<Worker>, d: nat)
    requires d < |workers| && workers[d].Doubting?
    requires forall v: nat :: v < |workers| && workers[v].Doubting? ==> v == d
    requires forall v: nat :: v < |workers| ==> !workers[v].Failing? && !workers[v].Unwinding? && !workers[v].Loading?
    requires Asleep in workers ==> Failing in workers
    ensures forall x <- workers[d := Asleep] :: x.Asleep? || x.Gone? || x.Awake?
  {
    var after := workers[d := Asleep];
    forall x <- after
      ensures x.Asleep? || x.Gone? || x.Awake?
    {
      var v: nat :| v < |after| && after[v] == x;
    }
  }

  /** At most one worker holds the mutex. */
  ghost predicate OneDoubter(m: Machine) {
    forall v: nat, u: nat :: v < u < |m.workers| && m.workers[v].Doubting? ==> !m.workers[u].Doubting?
  }

  lemma StepKeepsOneDoubter(files: Files, m: Machine, w: nat, action: Action, m': Machine)
    requires OneDoubter(m) && Step(files, m, w, action, m')
    ensures OneDoubter(m')
  {
    hide Interrupted, Completed;
    forall v: nat, u: nat | v < u < |m'.workers| && m'.workers[v].Doubting?
      ensures !m'.workers[u].Doubting?
    {
      assert m.workers[v] in m.workers && m.workers[u] in m.workers;
    }
  }

  lemma {:induction false} RunsKeepOneDoubter(files: Files, root: Path, items: seq<Item>, states: seq<Machine>,
                                              moves: seq<(nat, Action)>, i: nat)
    requires Run(files, root, items, states, moves) && i < |states|
    ensures OneDoubter(states[i])
  {
    hide OneDoubter, Step;
    if i == 0 {
      AllAwake(states[0]);
    } else {
      RunsKeepOneDoubter(files, root, items, states, moves, i - 1);
      StepKeepsOneDoubter(files, states[i - 1], moves[i - 1].0, moves[i - 1].1, states[i]);
    }
  }

  lemma AllAwake(m: Machine)
    requires forall w <- m.workers :: w == Awake
    ensures OneDoubter(m)
  {
    assert forall v: nat :: v < |m.workers| ==> m.workers[v] in m.workers;
  }

  /** The failure flag is raised and announced without the mutex. The pool can end up
  asleep for ever exactly when, at the moment the flag is first raised, some worker has
  found nothing to do and is not asleep yet. */
  lemma HangIff(files: Files, root: Path, items: seq<Item>, states: seq<Machine>, moves: seq<(nat, Action)>, f: nat)
    requires Run(files, root, items, states, moves) && f < |moves| && moves[f].1.Raise? && !states[f].pool.broken
    ensures MayHang(files, states[f + 1]) <==> Doubting in states[f].workers
  {
    RunsKeepInv(files, root, items, states, moves, f);
    RunsKeepOneDoubter(files, root, items, states, moves, f);
    RunsKeepOneDoubter(files, root, items, states, moves, f + 1);
    var m, m', w := states[f], states[f + 1], moves[f].0;
    assert Step(files, m, w, moves[f].1, m');
    hide Run, Inv;
    if Doubting in m.workers {
      var d: nat :| d < |m.workers| && m.workers[d].Doubting?;
      assert m'.workers[d] == Doubting && m'.workers[w] == Failing;
      DoubterHangs(files, m', d);
    } else {
      FailureHeard(files, m, w, m');
      if MayHang(files, m') {
        var s: seq<Machine>, l: seq<(nat, Action)>, to: Machine :| Leads(files, s, l, m', to) && Stuck(to);
        DrainingLeads(files, s, l, m', to);
      }
    }
  }

  /** A pool is stuck only after a breakdown. */
  lemma StuckIsBroken(files: Files, root: Path, items: seq<Item>, states: seq<Machine>, moves: seq<(nat, Action)>, n: nat)
    requires Run(files, root, items, states, moves) && n < |states| && Stuck(states[n])
    ensures states[n].pool.broken
  {
    RunsKeepInv(files, root, items, states, moves, n);
    if !states[n].pool.broken {
      var w: nat :| w < |states[n].workers| && states[n].workers[w].Asleep?;
      var v, action := NoDeadlock(files, root, states[n], w);
      Present(states[n].workers, v);
      assert false;
    }
  }

  /** The losing interleaving with two workers: the first one loads, the second finds
  nothing to do, the first one breaks down and notifies, the second one falls asleep. */
  lemma LostWakeup() returns (states: seq<Machine>, moves: seq<(nat, Action)>)
    ensures Run(map[], 0, [Item(1, Project)], states, moves) && |states[0].workers| == 2
    ensures Stuck(states[|moves|])
  {
    var start := OneNested();
    var loading := Machine(start.pool.(queue := []), [Loading(1), Awake], [1]);
    var doubting := loading.(workers := [Loading(1), Doubting]);
    var unwinding := doubting.(workers := [Unwinding, Doubting]);
    var failing := Machine(doubting.pool.(broken := true), [Failing, Doubting], [1]);
    var notified := failing.(workers := [Gone, Doubting]);
    var asleep := failing.(workers := [Gone, Asleep]);
    states := [start, loading, doubting, unwinding, failing, notified, asleep];
    moves := [(0, Take), (1, Doubt), (0, Throw(0)), (0, Raise), (0, Notify), (1, Sleep)];
    hide InitialPool, ScheduledAll, Completed;
    assert Step(map[], start, 0, Take, loading);
    assert Step(map[], loading, 1, Doubt, doubting);
    assert Step(map[], doubting, 0, Throw(0), unwinding);
    assert Step(map[], unwinding, 0, Raise, failing);
    assert Woken(failing.workers[0 := Gone]) == [Gone, Doubting];
    assert Step(map[], failing, 0, Notify, notified);
    assert Step(map[], notified, 1, Sleep, asleep);
    hide Step;
    assert asleep.workers[1] == Asleep;
  }

  /** Two workers and a root configuration with one nested project. */
  lemma OneNested() returns (m: Machine)
    ensures Start(0, [Item(1, Project)], m) && m.workers == [Awake, Awake]
    ensures m.pool.queue == [1] && !m.pool.stop && !m.pool.broken
  {
    var items := [Item(1, Project)];
    var empty := Pool(map[0 := Node(true, items)], [], 0, false, false, false);
    assert ScheduledAll(empty, items[..0]) == empty;
    m := Machine(InitialPool(0, items), [Awake, Awake], []);
  }

  // ----- Termination -----

  /** How many steps a worker may still make on its own account. In a pool of `n`
  workers one notification costs at most two steps of each of the others. */
  function Weight(n: nat, w: Worker): nat {
    match w
    case Gone => 0
    case Failing => 2 * n
    case Unwinding => 2 * n + 1
    case Asleep => 2 * n + 1
    case Doubting => 2 * n + 2
    case Awake => 2 * n + 3
    case Loading(_) => 4 * n + 2
  }

  function Weights(n: nat, workers: seq<Worker>): nat {
    if workers == [] then 0
    else Weights(n, workers[..|workers| - 1]) + Weight(n, workers[|workers| - 1])
  }

  lemma {:induction false} WeightsAfter(n: nat, workers: seq<Worker>, w: nat, x: Worker)
    requires w < |workers|
    ensures Weights(n, workers[w := x]) + Weight(n, workers[w]) == Weights(n, workers) + Weight(n, x)
    decreases |workers|
  {
    var last := |workers| - 1;
    if w == last {
      assert workers[w := x][..last] == workers[..last];
    } else {
      assert workers[w := x][..last] == workers[..last][w := x];
      WeightsAfter(n, workers[..last], w, x);
    }
  }

  lemma {:induction false} WeightsWoken(n: nat, workers: seq<Worker>)
    ensures Weights(n, Woken(workers)) <= Weights(n, workers) + 2 * |workers|
  {
    if workers != [] {
      var last := |workers| - 1;
      assert Woken(workers)[..last] == Woken(workers[..last]);
      WeightsWoken(n, workers[..last]);
    }
  }

  /** One worker that is not asleep changes and all sleepers wake. */
  lemma WeightsNotified(n: nat, workers: seq<Worker>, w: nat, x: Worker)
    requires w < |workers| == n && !x.Asleep? && !workers[w].Asleep?
    ensures Weights(n, Woken(workers[w := x])) + Weight(n, workers[w]) <= Weights(n, workers) + Weight(n, x) + 2 * (n - 1)
  {
    var others, after := workers[..w] + workers[w + 1..], workers[w := x];
    WeightsSplit(n, workers, w);
    WeightsSplit(n, Woken(after), w);
    WeightsWoken(n, others);
    assert Woken(after)[..w] + Woken(after)[w + 1..] == Woken(others);
  }

  lemma {:induction false} WeightsSplit(n: nat, workers: seq<Worker>, w: nat)
    requires w < |workers|
    ensures Weights(n, workers) == Weights(n, workers[..w] + workers[w + 1..]) + Weight(n, workers[w])
    decreases |workers|
  {
    var last := |workers| - 1;
    if w == last {
      assert workers[..w] + workers[w + 1..] == workers[..last];
    } else {
      WeightsSplit(n, workers[..last], w);
      var rest := workers[..w] + workers[w + 1..];
      assert rest[..|rest| - 1] == workers[..last][..w] + workers[..last][w + 1..];
    }
  }

  ghost predicate PoolWithin(files: Files, paths: set<Path>, p: Pool) {
    && p.cache.Keys <= paths
    && (forall f <- files, i <- files[f] :: i.role == Project ==> i.path in paths)
    && (forall x <- p.queue :: x in p.cache)
  }

  /** The pool has seen more paths, but none is unloaded that was not. */
  ghost predicate Absorbed(files: Files, paths: set<Path>, p: Pool, p': Pool) {
    PoolWithin(files, paths, p') && p.cache.Keys <= p'.cache.Keys && Unloaded(paths, p') == Unloaded(paths, p)
  }

  /** All paths that any file can mention lie in the finite set `paths`, and what is
  queued or being loaded has been seen. */
  ghost predicate Within(files: Files, paths: set<Path>, m: Machine) {
    && PoolWithin(files, paths, m.pool)
    && (forall v: nat :: v < |m.workers| && m.workers[v].Loading? ==> m.workers[v].path in m.pool.cache)
  }

  /** What is not loaded yet: paths nobody has seen, and queued ones. */
  function Unloaded(paths: set<Path>, p: Pool): nat {
    |paths - p.cache.Keys| + |p.queue|
  }

  function Times(a: nat, b: nat): nat {
    a * b
  }

  ghost function StepsLeft(paths: set<Path>, m: Machine): nat {
    Times(4 * |m.workers|, Unloaded(paths, m.pool)) + Weights(|m.workers|, m.workers)
  }

  lemma {:induction false} ScheduleUses(paths: set<Path>, p: Pool, items: seq<Item>)
    requires p.cache.Keys <= paths && forall i <- items :: i.role == Project ==> i.path in paths
    requires forall x <- p.queue :: x in p.cache
    ensures var r := ScheduledAll(p, items);
            && r.cache.Keys <= paths && p.cache.Keys <= r.cache.Keys
            && (forall x <- r.queue :: x in r.cache)
            && Unloaded(paths, r) == Unloaded(paths, p)
  {
    if items != [] {
      var last := |items| - 1;
      assert items[last] in items;
      assert forall i <- items[..last] :: i in items;
      ScheduleUses(paths, p, items[..last]);
      if items[last].role == Project {
        ScheduleUse(paths, ScheduledAll(p, items[..last]), items[last].path);
      }
    }
  }

  lemma ScheduleUse(paths: set<Path>, p: Pool, path: Path)
    requires p.cache.Keys <= paths && path in paths && forall x <- p.queue :: x in p.cache
    ensures var r := Scheduled(p, path);
            && r.cache.Keys <= paths && p.cache.Keys <= r.cache.Keys
            && (forall x <- r.queue :: x in r.cache)
            && Unloaded(paths, r) == Unloaded(paths, p)
  {
    if path !in p.cache {
      assert Scheduled(p, path).cache.Keys == p.cache.Keys + {path};
      assert paths - Scheduled(p, path).cache.Keys == (paths - p.cache.Keys) - {path};
      assert path in paths - p.cache.Keys;
    }
  }

  /** Loading a file, completely or up to a breakdown, only moves paths into the queue. */
  lemma LoadUses(files: Files, paths: set<Path>, p: Pool, path: Path, n: nat)
    requires PoolWithin(files, paths, p) && path in files && path in p.cache && n <= |files[path]|
    ensures Absorbed(files, paths, p, ScheduledAll(p.(cache := p.cache[path := Node(true, files[path])]), files[path][..n]))
  {
    var q := p.(cache := p.cache[path := Node(true, files[path])]);
    assert q.cache.Keys == p.cache.Keys;
    assert forall i <- files[path][..n] :: i in files[path];
    ScheduleUses(paths, q, files[path][..n]);
    hide ScheduledAll;
  }

  lemma CompletedUses(files: Files, paths: set<Path>, p: Pool, path: Path)
    requires PoolWithin(files, paths, p) && path in p.cache
    ensures Absorbed(files, paths, p, Completed(p, files, path))
  {
    hide ScheduledAll;
    if path in files {
      assert files[path][..|files[path]|] == files[path];
      LoadUses(files, paths, p, path, |files[path]|);
    }
  }

  lemma InterruptedUses(files: Files, paths: set<Path>, p: Pool, worker: Worker, n: nat)
    requires PoolWithin(files, paths, p) && (worker.Loading? ==> worker.path in p.cache)
    ensures Absorbed(files, paths, p, Interrupted(p, files, worker, n))
  {
    hide ScheduledAll;
    if worker.Loading? && worker.path in files && 0 < n <= |files[worker.path]| {
      LoadUses(files, paths, p, worker.path, n - 1);
    }
  }

  lemma StepWithin(files: Files, paths: set<Path>, m: Machine, w: nat, action: Action, m': Machine)
    requires Step(files, m, w, action, m') && Within(files, paths, m)
    ensures Within(files, paths, m')
    ensures Unloaded(paths, m'.pool) + (if action.Take? then 1 else 0) == Unloaded(paths, m.pool)
  {
    hide Completed, Interrupted;
    if action.Complete? {
      CompletedUses(files, paths, m.pool, m.workers[w].path);
      hide PoolWithin, Unloaded;
    } else if action.Throw? {
      InterruptedUses(files, paths, m.pool, m.workers[w], action.reached);
      hide PoolWithin, Unloaded;
    } else if action.Take? {
      assert m.pool.queue[0] in m.pool.queue;
    } else {
      hide PoolWithin, Unloaded;
    }
  }

  lemma TimesLess(a: nat, b: nat)
    ensures Times(a, b + 1) == Times(a, b) + a
  {
  }

  /** Outside the queue every step but Take and a spurious wake-up costs weight. */
  lemma StepWeighs(files: Files, m: Machine, w: nat, action: Action, m': Machine)
    requires Step(files, m, w, action, m')
    ensures |m'.workers| == |m.workers|
    ensures var n, before, after := |m.workers|, Weights(|m.workers|, m.workers), Weights(|m.workers|, m'.workers);
            if action.Take? then after < before + 4 * n
            else if action.Spurious? then after == before + 2
            else after < before
  {
    hide Completed, Interrupted, Weights, Woken;
    var n := |m.workers|;
    match action
    case Take => WeightsAfter(n, m.workers, w, Loading(m.pool.queue[0]));
    case Complete => WeightsNotified(n, m.workers, w, Awake);
    case Notify => WeightsNotified(n, m.workers, w, Gone);
    case Doubt => WeightsAfter(n, m.workers, w, Doubting);
    case Sleep => WeightsAfter(n, m.workers, w, Asleep);
    case Leave => WeightsAfter(n, m.workers, w, Gone);
    case Throw(_) => WeightsAfter(n, m.workers, w, Unwinding);
    case Raise => WeightsAfter(n, m.workers, w, Failing);
    case Spurious => WeightsAfter(n, m.workers, w, Awake);
  }

  /** Every step uses one up, except that a sleeper which wakes for no reason wins two. */
  lemma StepsRunOut(files: Files, paths: set<Path>, m: Machine, w: nat, action: Action, m': Machine)
    requires Step(files, m, w, action, m') && Within(files, paths, m)
    ensures |m'.workers| == |m.workers|
    ensures StepsLeft(paths, m') < StepsLeft(paths, m) + if action.Spurious? then 3 else 0
  {
    hide *;
    StepWithin(files, paths, m, w, action, m');
    StepWeighs(files, m, w, action, m');
    StepsLeftIs(paths, m);
    StepsLeftIs(paths, m');
    TimesLess(4 * |m.workers|, Unloaded(paths, m'.pool));
  }

  lemma StepsLeftIs(paths: set<Path>, m: Machine)
    ensures StepsLeft(paths, m) == Times(4 * |m.workers|, Unloaded(paths, m.pool)) + Weights(|m.workers|, m.workers)
  {
    hide Times, Unloaded, Weights;
  }

  function SpuriousCount(moves: seq<(nat, Action)>): nat {
    if moves == [] then 0
    else SpuriousCount(moves[..|moves| - 1]) + if moves[|moves| - 1].1.Spurious? then 1 else 0
  }

  lemma StartWithin(files: Files, root: Path, items: seq<Item>, paths: set<Path>, m: Machine)
    requires Start(root, items, m) && root in paths
    requires forall i <- items :: i.role == Project ==> i.path in paths
    requires forall p <- files, i <- files[p] :: i.role == Project ==> i.path in paths
    ensures Within(files, paths, m)
  {
    ScheduleUses(paths, Pool(map[root := Node(true, items)], [], 0, false, false, false), items);
    hide ScheduledAll;
    assert forall v: nat :: v < |m.workers| ==> m.workers[v] in m.workers;
  }

  /** Over finitely many paths every run is finite: its length is bounded by where it
  starts and by how often sleepers wake for no reason. */
  lemma {:induction false} RunsEnd(files: Files, root: Path, items: seq<Item>, paths: set<Path>, states: seq<Machine>,
                                   moves: seq<(nat, Action)>)
    requires Run(files, root, items, states, moves) && root in paths
    requires forall i <- items :: i.role == Project ==> i.path in paths
    requires forall p <- files, i <- files[p] :: i.role == Project ==> i.path in paths
    ensures Within(files, paths, states[|moves|])
    ensures |moves| + StepsLeft(paths, states[|moves|]) <= StepsLeft(paths, states[0]) + 3 * SpuriousCount(moves)
    decreases |moves|
  {
    hide StepsLeft, Within, Start, Step;
    if moves == [] {
      StartWithin(files, root, items, paths, states[0]);
    } else {
      var n := |moves| - 1;
      RunsEnd(files, root, items, paths, states[..n + 1], moves[..n]);
      assert Step(files, states[n], moves[n].0, moves[n].1, states[n + 1]);
      StepWithin(files, paths, states[n], moves[n].0, moves[n].1, states[n + 1]);
      StepsRunOut(files, paths, states[n], moves[n].0, moves[n].1, states[n + 1]);
    }
  }

  // ----- What is loaded at the end -----

  /** A chain of nested projects from the root configuration. */
  ghost predicate Chain(files: Files, root: Path, items: seq<Item>, path: seq<Path>) {
    && path != [] && path[0] == root
    && forall k: nat :: k + 1 < |path| ==>
         Item(path[k + 1], Project) in ItemsOf(files, root, items, path[k])
  }

  function ItemsOf(files: Files, root: Path, items: seq<Item>, p: Path): seq<Item> {
    if p == root then items else if p in files then files[p] else []
  }

  /** A worker that has left without a breakdown saw the pool stopped, and it stays stopped. */
  lemma {:induction false} StoppedOnceGone(files: Files, root: Path, items: seq<Item>, states: seq<Machine>,
                                           moves: seq<(nat, Action)>, n: nat)
    requires Run(files, root, items, states, moves) && n < |states| && Intact(states[n])
    requires exists w <- states[n].workers :: w == Gone
    ensures states[n].pool.outstanding == 0
    decreases n
  {
    hide Accounted, ClosedCache;
    assert forall w <- states[0].workers :: w == Awake;
    if n > 0 {
      var m, m', w, action := states[n - 1], states[n], moves[n - 1].0, moves[n - 1].1;
      assert Step(files, m, w, action, m');
      RunsKeepInv(files, root, items, states, moves, n - 1);
      if !Intact(m) {
        BreakdownStays(files, m, w, action, m');
      }
      if Gone in m.workers {
        StoppedOnceGone(files, root, items, states, moves, n - 1);
      } else {
        WorkerKept(m.workers, w, m'.workers[w], Gone);
      }
      if action.Complete? {
        ActivePositive(m.workers, w);
      }
    }
  }

  ghost predicate Reachable(files: Files, root: Path, items: seq<Item>, p: Path) {
    exists path :: Chain(files, root, items, path) && path[|path| - 1] == p
  }

  lemma ReachableNext(files: Files, root: Path, items: seq<Item>, p: Path, q: Path)
    requires Reachable(files, root, items, p) && Item(q, Project) in ItemsOf(files, root, items, p)
    ensures Reachable(files, root, items, q)
  {
    var path :| Chain(files, root, items, path) && path[|path| - 1] == p;
    var longer := path + [q];
    assert Chain(files, root, items, longer);
    assert longer[|longer| - 1] == q;
  }

  lemma {:induction false} ScheduledOnly(p: Pool, items: seq<Item>, x: Path)
    requires x in ScheduledAll(p, items).cache
    ensures x in p.cache || Item(x, Project) in items
  {
    if items != [] {
      var last := |items| - 1;
      assert items == items[..last] + [items[last]];
      if x in ScheduledAll(p, items[..last]).cache {
        ScheduledOnly(p, items[..last], x);
      } else {
        assert items[last] == Item(x, Project);
      }
    }
  }

  /** Breakdown or not, only paths reachable from the root are ever looked at. */
  lemma {:induction false} OnlyReachableCached(files: Files, root: Path, items: seq<Item>, states: seq<Machine>,
                                               moves: seq<(nat, Action)>, n: nat, p: Path)
    requires Run(files, root, items, states, moves) && n < |states| && p in states[n].pool.cache
    ensures Reachable(files, root, items, p)
    decreases n
  {
    hide Reachable, Listed, LoadsTaken, Woken, Interrupted;
    if n == 0 {
      assert Reachable(files, root, items, root) by { RootReachable(files, root, items); }
      var pool := Pool(map[root := Node(true, items)], [], 0, false, false, false);
      ScheduledOnly(pool, items, p);
      if p != root {
        ReachableNext(files, root, items, root, p);
      }
    } else {
      var m, m', w, action := states[n - 1], states[n], moves[n - 1].0, moves[n - 1].1;
      assert Step(files, m, w, action, m');
      LoadedAtMostOnce(files, root, items, states, moves, n - 1);
      if p in m.pool.cache {
        OnlyReachableCached(files, root, items, states, moves, n - 1, p);
      } else {
        var path := NewlySeen(files, m, w, action, m', p);
        TakenPath(root, m, w);
        OnlyReachableCached(files, root, items, states, moves, n - 1, path);
        ReachableNext(files, root, items, path, p);
      }
    }
  }

  /** A path enters the cache as a nested project of the file that was just loaded. */
  lemma NewlySeen(files: Files, m: Machine, w: nat, action: Action, m': Machine, p: Path) returns (path: Path)
    requires Step(files, m, w, action, m') && p !in m.pool.cache && p in m'.pool.cache
    ensures m.workers[w] == Loading(path) && path in files
    ensures path in m.pool.cache ==> Item(p, Project) in files[path]
  {
    path := m.workers[w].path;
    var q := m.pool.(cache := m.pool.cache[path := Node(true, files[path])]);
    if action.Throw? {
      ScheduledOnly(q, files[path][..action.reached - 1], p);
    } else {
      ScheduledOnly(q, files[path], p);
    }
    hide ScheduledAll;
  }

  lemma TakenPath(root: Path, m: Machine, w: nat)
    requires Listed(root, m.pool, m.taken) && LoadsTaken(m.workers, m.taken) && w < |m.workers| && m.workers[w].Loading?
    ensures m.workers[w].path in m.pool.cache && m.workers[w].path != root
  {
    Present(m.workers, w);
  }

  lemma RootReachable(files: Files, root: Path, items: seq<Item>)
    ensures Reachable(files, root, items, root)
  {
    assert Chain(files, root, items, [root]) && [root][|[root]| - 1] == root;
  }

  /** When every worker is gone and nothing failed, every path reachable from
  the root is in the cache, with the content of its file. */
  lemma EverythingReachableLoaded(files: Files, root: Path, items: seq<Item>, states: seq<Machine>,
                                  moves: seq<(nat, Action)>, n: nat, path: seq<Path>, k: nat)
    requires Run(files, root, items, states, moves) && n < |states|
    requires states[0].workers != [] && |states[n].workers| == |states[0].workers|
    requires forall w <- states[n].workers :: w == Gone
    requires !states[n].pool.broken && !states[n].pool.failed
    requires Chain(files, root, items, path) && k < |path|
    ensures var cache := states[n].pool.cache;
            path[k] in cache && cache[path[k]] == Node(true, ItemsOf(files, root, items, path[k]))
    decreases k
  {
    RunsKeepInv(files, root, items, states, moves, n);
    assert states[n].workers[0] in states[n].workers;
    StoppedOnceGone(files, root, items, states, moves, n);
    NoneActive(states[n].workers);
    RootKept(files, root, items, states, moves, n);
    var m := states[n];
    hide Run;
    if k == 0 {
    } else {
      EverythingReachableLoaded(files, root, items, states, moves, n, path, k - 1);
      assert path[k] in m.pool.cache;
      FinishedLoaded(files, root, m, path[k]);
    }
  }

  lemma FinishedLoaded(files: Files, root: Path, m: Machine, p: Path)
    requires Intact(m) && Inv(files, root, m) && !m.pool.failed && m.pool.queue == []
    requires forall w <- m.workers :: w == Gone
    requires p in m.pool.cache
    ensures m.pool.cache[p].loaded && (p != root ==> p in files && m.pool.cache[p].items == files[p])
  {
    hide ClosedCache;
    assert Loading(p) !in m.workers;
  }

  lemma {:induction false} RootKept(files: Files, root: Path, items: seq<Item>, states: seq<Machine>,
                                    moves: seq<(nat, Action)>, n: nat)
    requires Run(files, root, items, states, moves) && n < |states| && Intact(states[n])
    ensures root in states[n].pool.cache && states[n].pool.cache[root] == Node(true, items)
  {
    hide Accounted, ClosedCache;
    if n == 0 {
      var p := Pool(map[root := Node(true, items)], [], 0, false, false, false);
      ScheduledKeeps(p, items);
    } else {
      var m, m', w, action := states[n - 1], states[n], moves[n - 1].0, moves[n - 1].1;
      assert Step(files, m, w, action, m');
      RunsKeepInv(files, root, items, states, moves, n - 1);
      if !Intact(m) {
        BreakdownStays(files, m, w, action, m');
      }
      RootKept(files, root, items, states, moves, n - 1);
      Present(m'.workers, w);
      if action.Complete? && m.workers[w].path in files {
        var path := m.workers[w].path;
        SettleAccounted(files, root, m.pool.cache, m.pool.queue, m.workers, m.taken, m.pool.failed, w);
        ScheduledKeeps(m.pool.(cache := m.pool.cache[path := Node(true, files[path])]), files[path]);
      }
    }
  }

  lemma {:induction false} ScheduledKeeps(p: Pool, items: seq<Item>)
    ensures forall x <- p.cache :: x in ScheduledAll(p, items).cache && ScheduledAll(p, items).cache[x] == p.cache[x]
  {
    if items != [] {
      ScheduledKeeps(p, items[..|items| - 1]);
    }
  }
}
