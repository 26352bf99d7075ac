/** Expanding a composed project once all its files are loaded.

The traversal walks the nested projects with an explicit stack and three visit
states, emits the other items in order, visits every file once, and reports a
cycle. Its reference is the recursive first-visit expansion.
 */
module CompositionTraversal {
  import opened Collections
  import opened CompositionWorkers

  datatype Result =
    | Cycle
    | NotLoaded
    | Expanded(emitted: seq<Item>, finished: seq<Path>)

  function Prepended(before: seq<Item>, r: Result): Result {
    if r.Expanded? then r.(emitted := before + r.emitted) else r
  }

  /** The recursive expansion of the remaining `items` of the last file of
  `trail`; `trail` is being visited, `finished` was visited before. */
  function Expand(files: Files, items: seq<Item>, trail: seq<Path>, finished: seq<Path>): Result
    decreases files.Keys - SetOfPaths(trail), |items|
  {
    if items == [] then Expanded([], finished)
    else
      var first := items[0];
      if first.role != Project then Prepended([first], Expand(files, items[1..], trail, finished))
      else if first.path in trail then Cycle
      else if first.path in finished then Expand(files, items[1..], trail, finished)
      else if first.path !in files then NotLoaded
      else
        assert SetOfPaths(trail + [first.path]) == SetOfPaths(trail) + {first.path};
        assert first.path in files.Keys - SetOfPaths(trail);
        var inner := Expand(files, files[first.path], trail + [first.path], finished);
        if !inner.Expanded? then inner
        else Prepended(inner.emitted, Expand(files, items[1..], trail, inner.finished + [first.path]))
  }

  function SetOfPaths(s: seq<Path>): set<Path> {
    set p | p in s
  }

  /** The whole expansion: the root file, which is finished last. */
  function ExpandRoot(files: Files, root: Path): Result
    requires root in files
  {
    var r := Expand(files, files[root], [root], []);
    if r.Expanded? then r.(finished := r.finished + [root]) else r
  }

  // ----- The iterative traversal -----

  datatype VisitState = Visiting | Finished

  datatype Frame = Frame(path: Path, items: seq<Item>, next: nat)

  ghost predicate FramesFit(stack: seq<Frame>) {
    forall f <- stack :: f.next <= |f.items|
  }

  function Trail(stack: seq<Frame>): (trail: seq<Path>)
    ensures |trail| == |stack| && forall i :: 0 <= i < |stack| ==> trail[i] == stack[i].path
  {
    if stack == [] then [] else Trail(stack[..|stack| - 1]) + [stack[|stack| - 1].path]
  }

  /** What remains to be done when the traversal stands at `stack`. */
  function Continue(files: Files, stack: seq<Frame>, finished: seq<Path>): Result
    requires FramesFit(stack)
  {
    if stack == [] then Expanded([], finished)
    else
      var top := stack[|stack| - 1];
      var r := Expand(files, top.items[top.next..], Trail(stack), finished);
      if !r.Expanded? then r
      else Prepended(r.emitted, Continue(files, stack[..|stack| - 1], r.finished + [top.path]))
  }

  function Remaining(stack: seq<Frame>): nat
    requires FramesFit(stack)
  {
    if stack == [] then 0
    else Remaining(stack[..|stack| - 1]) + |stack[|stack| - 1].items| - stack[|stack| - 1].next
  }

  /** The visit states are those of the stack and of the finished files. */
  ghost predicate StatesMatch(states: map<Path, VisitState>, trail: seq<Path>, finished: seq<Path>) {
    && NoDuplicates(trail)
    && (forall p :: p in trail <==> p in states && states[p] == Visiting)
    && (forall p :: p in finished <==> p in states && states[p] == Finished)
  }

  lemma PrependedTwice(a: seq<Item>, b: seq<Item>, r: Result)
    ensures Prepended(a, Prepended(b, r)) == Prepended(a + b, r)
  {
    if r.Expanded? {
      assert a + (b + r.emitted) == (a + b) + r.emitted;
    }
  }

  /** The top frame has nothing left: it is popped and its file is finished. */
  lemma PopStep(files: Files, stack: seq<Frame>, finished: seq<Path>, before: seq<Item>)
    requires FramesFit(stack) && stack != []
    requires stack[|stack| - 1].next == |stack[|stack| - 1].items|
    ensures FramesFit(stack[..|stack| - 1])
    ensures Continue(files, stack, finished) == Continue(files, stack[..|stack| - 1], finished + [stack[|stack| - 1].path])
  {
    var top := stack[|stack| - 1];
    assert top.items[top.next..] == [];
    var r := Continue(files, stack[..|stack| - 1], finished + [top.path]);
    assert r.Expanded? ==> [] + r.emitted == r.emitted;
  }

  /** The next item of the top frame, and the stack after it. */
  lemma ItemStep(files: Files, stack: seq<Frame>, finished: seq<Path>)
    requires FramesFit(stack) && stack != []
    requires stack[|stack| - 1].next < |stack[|stack| - 1].items|
    ensures var top := stack[|stack| - 1];
            var item := top.items[top.next];
            var rest := stack[..|stack| - 1] + [top.(next := top.next + 1)];
            && FramesFit(rest) && Trail(rest) == Trail(stack)
            && (item.role != Project ==>
                  Continue(files, stack, finished) == Prepended([item], Continue(files, rest, finished)))
            && (item.role == Project && item.path in Trail(stack) ==> Continue(files, stack, finished) == Cycle)
            && (item.role == Project && item.path !in Trail(stack) && item.path in finished ==>
                  Continue(files, stack, finished) == Continue(files, rest, finished))
            && (item.role == Project && item.path !in Trail(stack) && item.path !in finished && item.path !in files ==>
                  Continue(files, stack, finished) == NotLoaded)
            && (item.role == Project && item.path !in Trail(stack) && item.path !in finished && item.path in files ==>
                  var deeper := rest + [Frame(item.path, files[item.path], 0)];
                  FramesFit(deeper) && Continue(files, stack, finished) == Continue(files, deeper, finished))
  {
    var n := |stack| - 1;
    var top := stack[n];
    var item := top.items[top.next];
    var bumped := top.(next := top.next + 1);
    var rest := stack[..n] + [bumped];
    forall f <- rest
      ensures f.next <= |f.items|
    {
      assert f == bumped || f in stack;
    }
    assert rest[..n] == stack[..n] && rest[n] == bumped;
    assert Trail(rest) == Trail(stack);
    assert top.items[top.next..][0] == item && top.items[top.next..][1..] == bumped.items[bumped.next..];
    var r := Expand(files, bumped.items[bumped.next..], Trail(stack), finished);
    if item.role != Project {
      if r.Expanded? {
        PrependedTwice([item], r.emitted, Continue(files, stack[..n], r.finished + [top.path]));
      }
    } else if item.path !in Trail(stack) && item.path !in finished && item.path in files {
      DeeperStep(files, stack, finished);
    }
  }

  lemma DeeperStep(files: Files, stack: seq<Frame>, finished: seq<Path>)
    requires FramesFit(stack) && stack != []
    requires stack[|stack| - 1].next < |stack[|stack| - 1].items|
    requires var item := stack[|stack| - 1].items[stack[|stack| - 1].next];
             item.role == Project && item.path !in Trail(stack) && item.path !in finished && item.path in files
    ensures var top := stack[|stack| - 1];
            var item := top.items[top.next];
            var deeper := stack[..|stack| - 1] + [top.(next := top.next + 1)] + [Frame(item.path, files[item.path], 0)];
            FramesFit(deeper) && Continue(files, stack, finished) == Continue(files, deeper, finished)
  {
    var n := |stack| - 1;
    var top := stack[n];
    var item := top.items[top.next];
    var bumped := top.(next := top.next + 1);
    var rest := stack[..n] + [bumped];
    var child := Frame(item.path, files[item.path], 0);
    var deeper := rest + [child];
    forall f <- deeper
      ensures f.next <= |f.items|
    {
      assert f == bumped || f == child || f in stack;
    }
    assert rest[..n] == stack[..n] && deeper[..n + 1] == rest && deeper[n + 1] == child;
    assert Trail(rest) == Trail(stack);
    assert Trail(deeper) == Trail(stack) + [item.path];
    assert child.items[0..] == files[item.path];
    assert top.items[top.next..][0] == item && top.items[top.next..][1..] == bumped.items[bumped.next..];
    var inner := Expand(files, files[item.path], Trail(stack) + [item.path], finished);
    if inner.Expanded? {
      var r := Expand(files, bumped.items[bumped.next..], Trail(stack), inner.finished + [item.path]);
      assert Expand(files, top.items[top.next..], Trail(stack), finished) == Prepended(inner.emitted, r);
      assert Continue(files, rest, inner.finished + [item.path])
          == if r.Expanded? then Prepended(r.emitted, Continue(files, stack[..n], r.finished + [top.path])) else r;
      if r.Expanded? {
        PrependedTwice(inner.emitted, r.emitted, Continue(files, stack[..n], r.finished + [top.path]));
      }
    }
  }

  /** Pushing keeps the states in step with the stack. */
  lemma PushStates(states: map<Path, VisitState>, trail: seq<Path>, finished: seq<Path>, p: Path)
    requires StatesMatch(states, trail, finished) && p !in states
    ensures StatesMatch(states[p := Visiting], trail + [p], finished)
  {
  }

  lemma PopStates(states: map<Path, VisitState>, trail: seq<Path>, finished: seq<Path>)
    requires StatesMatch(states, trail, finished) && trail != []
    ensures StatesMatch(states[trail[|trail| - 1] := Finished], trail[..|trail| - 1], finished + [trail[|trail| - 1]])
  {
    var p := trail[|trail| - 1];
    assert trail == trail[..|trail| - 1] + [p];
    assert p !in trail[..|trail| - 1];
  }

  /** How many loaded files have not been visited. */
  ghost function Unseen(files: Files, states: map<Path, VisitState>): nat {
    |files.Keys - states.Keys|
  }

  lemma UnseenLess(files: Files, states: map<Path, VisitState>, p: Path)
    requires p in files && p !in states
    ensures Unseen(files, states[p := Visiting]) < Unseen(files, states)
  {
    assert files.Keys - states[p := Visiting].Keys == (files.Keys - states.Keys) - {p};
  }

  lemma RemainingSteps(stack: seq<Frame>)
    requires FramesFit(stack) && stack != []
    ensures FramesFit(stack[..|stack| - 1])
    ensures stack[|stack| - 1].next == |stack[|stack| - 1].items| ==> Remaining(stack[..|stack| - 1]) == Remaining(stack)
    ensures var top := stack[|stack| - 1];
            top.next < |top.items| ==>
              var rest := stack[..|stack| - 1] + [top.(next := top.next + 1)];
              FramesFit(rest) && Remaining(rest) == Remaining(stack) - 1
  {
    var top := stack[|stack| - 1];
    if top.next < |top.items| {
      var rest := stack[..|stack| - 1] + [top.(next := top.next + 1)];
      assert rest[..|rest| - 1] == stack[..|stack| - 1];
      forall f <- rest
        ensures f.next <= |f.items|
      {
        assert f == rest[|rest| - 1] || f in stack;
      }
    }
  }

  /** What the caller sees: the items given to the sink, or an error. */
  datatype Outcome = CycleReported | MissingReported | Emitted(items: seq<Item>)

  function Observed(r: Result): Outcome {
    match r
    case Cycle => CycleReported
    case NotLoaded => MissingReported
    case Expanded(emitted, _) => Emitted(emitted)
  }

  /** The stack after its top frame has moved to the next item. */
  function Advanced(stack: seq<Frame>): seq<Frame>
    requires stack != []
  {
    var top := stack[|stack| - 1];
    stack[..|stack| - 1] + [top.(next := top.next + 1)]
  }

  lemma AdvanceStep(files: Files, stack: seq<Frame>, finished: seq<Path>, out: seq<Item>)
    requires FramesFit(stack) && stack != []
    requires stack[|stack| - 1].next < |stack[|stack| - 1].items|
    ensures var item := stack[|stack| - 1].items[stack[|stack| - 1].next];
            var rest := Advanced(stack);
            && FramesFit(rest) && rest != [] && |rest| == |stack| && Remaining(rest) == Remaining(stack) - 1
            && Trail(rest) == Trail(stack)
            && (item.role != Project ==>
                  Prepended(out, Continue(files, stack, finished)) == Prepended(out + [item], Continue(files, rest, finished)))
            && (item.role == Project && item.path in Trail(stack) ==> Continue(files, stack, finished) == Cycle)
            && (item.role == Project && item.path !in Trail(stack) && item.path in finished ==>
                  Continue(files, stack, finished) == Continue(files, rest, finished))
            && (item.role == Project && item.path !in Trail(stack) && item.path !in finished && item.path !in files ==>
                  Continue(files, stack, finished) == NotLoaded)
            && (item.role == Project && item.path !in Trail(stack) && item.path !in finished && item.path in files ==>
                  var deeper := rest + [Frame(item.path, files[item.path], 0)];
                  && FramesFit(deeper) && Trail(deeper) == Trail(stack) + [item.path]
                  && Continue(files, stack, finished) == Continue(files, deeper, finished))
  {
    ItemStep(files, stack, finished);
    RemainingSteps(stack);
    var item := stack[|stack| - 1].items[stack[|stack| - 1].next];
    hide Continue, Expand, FramesFit, Remaining, Trail;
    if item.role != Project {
      PrependedTwice(out, [item], Continue(files, Advanced(stack), finished));
    } else if item.path in files {
      PushedTrail(Advanced(stack), Frame(item.path, files[item.path], 0));
    }
  }

  lemma PoppedStep(files: Files, stack: seq<Frame>, finished: seq<Path>, states: map<Path, VisitState>)
    requires FramesFit(stack) && stack != [] && StatesMatch(states, Trail(stack), finished)
    requires stack[|stack| - 1].next == |stack[|stack| - 1].items|
    ensures var p, rest := stack[|stack| - 1].path, stack[..|stack| - 1];
            && FramesFit(rest) && Remaining(rest) == Remaining(stack)
            && Continue(files, stack, finished) == Continue(files, rest, finished + [p])
            && StatesMatch(states[p := Finished], Trail(rest), finished + [p])
            && Unseen(files, states[p := Finished]) == Unseen(files, states)
  {
    hide Continue, Expand, Remaining, Trail, StatesMatch, Unseen;
    PopStep(files, stack, finished, []);
    RemainingSteps(stack);
    TopOfTrail(stack);
    PopStates(states, Trail(stack), finished);
    assert Trail(stack)[|stack| - 1] in Trail(stack);
    UnseenSame(files, states, stack[|stack| - 1].path, Trail(stack), finished);
  }

  lemma TopFits(stack: seq<Frame>)
    requires FramesFit(stack) && stack != []
    ensures stack[|stack| - 1].next <= |stack[|stack| - 1].items|
  {
  }

  lemma ErrorPassesThrough(out: seq<Item>, r: Result)
    requires !r.Expanded?
    ensures Prepended(out, r) == r
  {
  }

  /** The traversal loop: it terminates and emits exactly the recursive expansion. */
  method Traverse(files: Files, root: Path) returns (outcome: Outcome)
    requires root in files
    ensures outcome == Observed(ExpandRoot(files, root))
  {
    hide *;
    var states: map<Path, VisitState> := map[root := Visiting];
    var stack := [Frame(root, files[root], 0)];
    var out: seq<Item> := [];
    ghost var finished: seq<Path> := [];
    Begins(files, root);
    while stack != []
      invariant FramesFit(stack)
      invariant StatesMatch(states, Trail(stack), finished)
      invariant ExpandRoot(files, root) == Prepended(out, Continue(files, stack, finished))
      decreases Unseen(files, states), Remaining(stack) + |stack|
    {
      var top := stack[|stack| - 1];
      TopFits(stack);
      if top.next == |top.items| {
        PoppedStep(files, stack, finished, states);
        states := states[top.path := Finished];
        finished := finished + [top.path];
        stack := stack[..|stack| - 1];
        continue;
      }
      var item := top.items[top.next];
      AdvanceStep(files, stack, finished, out);
      AdvancedIs(stack);
      StatesSay(states, Trail(stack), finished, item.path);
      ErrorPassesThrough(out, Cycle);
      ErrorPassesThrough(out, NotLoaded);
      stack := stack[..|stack| - 1] + [top.(next := top.next + 1)];
      if item.role != Project {
        out := out + [item];
        continue;
      }
      if item.path in states && states[item.path] == Visiting {
        return ErrorOutcome(Cycle);
      }
      if item.path in states {
        continue;
      }
      if item.path !in files {
        return ErrorOutcome(NotLoaded);
      }
      PushStates(states, Trail(stack), finished, item.path);
      UnseenLess(files, states, item.path);
      states := states[item.path := Visiting];
      stack := stack + [Frame(item.path, files[item.path], 0)];
    }
    Ends(files, finished, out);
    return Emitted(out);
  }

  function ErrorOutcome(r: Result): (o: Outcome)
    requires !r.Expanded?
    ensures o == Observed(r)
  {
    if r.Cycle? then CycleReported else MissingReported
  }

  lemma AdvancedIs(stack: seq<Frame>)
    requires stack != []
    ensures var top := stack[|stack| - 1];
            Advanced(stack) == stack[..|stack| - 1] + [top.(next := top.next + 1)]
  {
  }

  lemma Begins(files: Files, root: Path)
    requires root in files
    ensures var stack := [Frame(root, files[root], 0)];
            && FramesFit(stack)
            && StatesMatch(map[root := Visiting], Trail(stack), [])
            && ExpandRoot(files, root) == Prepended([], Continue(files, stack, []))
  {
    var stack := [Frame(root, files[root], 0)];
    assert stack[0].items[0..] == files[root];
    assert stack[..0] == [];
    assert Trail(stack) == [root];
    var r := Expand(files, files[root], [root], []);
    if r.Expanded? {
      assert Continue(files, [], r.finished + [root]) == Expanded([], r.finished + [root]);
      assert [] + (r.emitted + []) == r.emitted;
    }
  }

  lemma Ends(files: Files, finished: seq<Path>, out: seq<Item>)
    requires FramesFit([])
    ensures Observed(Prepended(out, Continue(files, [], finished))) == Emitted(out)
  {
    assert out + [] == out;
  }

  lemma TopOfTrail(stack: seq<Frame>)
    requires stack != []
    ensures Trail(stack)[|stack| - 1] == stack[|stack| - 1].path
    ensures Trail(stack)[..|stack| - 1] == Trail(stack[..|stack| - 1])
  {
  }

  lemma PushedTrail(stack: seq<Frame>, frame: Frame)
    ensures Trail(stack + [frame]) == Trail(stack) + [frame.path]
  {
    assert (stack + [frame])[..|stack|] == stack;
  }

  lemma UnseenSame(files: Files, states: map<Path, VisitState>, p: Path, trail: seq<Path>, finished: seq<Path>)
    requires StatesMatch(states, trail, finished) && p in trail
    ensures Unseen(files, states[p := Finished]) == Unseen(files, states)
  {
    assert states[p := Finished].Keys == states.Keys;
  }

  lemma StatesSay(states: map<Path, VisitState>, trail: seq<Path>, finished: seq<Path>, p: Path)
    requires StatesMatch(states, trail, finished)
    ensures p in trail <==> p in states && states[p] == Visiting
    ensures p in finished <==> p in states && states[p] == Finished
  {
  }

  // ----- Cycles -----

  ghost predicate Edge(files: Files, p: Path, q: Path) {
    p in files && Item(q, Project) in files[p]
  }

  ghost predicate Walk(files: Files, path: seq<Path>) {
    path != [] && forall k: nat :: k + 1 < |path| ==> Edge(files, path[k], path[k + 1])
  }

  /** A walk from the root that comes back to a file it has passed. */
  ghost predicate CycleReachable(files: Files, root: Path) {
    exists path: seq<Path>, i: nat, j: nat ::
      Walk(files, path) && path[0] == root && i < j < |path| && path[i] == path[j]
  }

  /** Every nested project of every file has been loaded. */
  ghost predicate AllLoaded(files: Files) {
    forall p <- files, i <- files[p] :: i.role == Project ==> i.path in files
  }

  lemma WalkPush(files: Files, path: seq<Path>, q: Path)
    requires Walk(files, path) && Edge(files, path[|path| - 1], q)
    ensures Walk(files, path + [q]) && (path + [q])[0] == path[0]
  {
    var longer := path + [q];
    forall k: nat | k + 1 < |longer|
      ensures Edge(files, longer[k], longer[k + 1])
    {
      if k + 1 < |path| {
        assert Edge(files, path[k], path[k + 1]);
      }
    }
  }

  /** A reported cycle is a real one. */
  lemma {:induction false} CycleIsReachable(files: Files, items: seq<Item>, trail: seq<Path>, finished: seq<Path>,
                                            root: Path)
    requires Walk(files, trail) && trail[0] == root
    requires forall i <- items :: i.role == Project ==> Edge(files, trail[|trail| - 1], i.path)
    requires Expand(files, items, trail, finished) == Cycle
    ensures CycleReachable(files, root)
    decreases files.Keys - SetOfPaths(trail), |items|
  {
    hide CycleReachable, Walk, Edge;
    var first := items[0];
    assert items == [first] + items[1..];
    if first.role == Project && first.path in trail {
      WalkPush(files, trail, first.path);
      ClosesCycle(files, trail, first.path, root);
    } else if first.role == Project && first.path !in finished {
      assert SetOfPaths(trail + [first.path]) == SetOfPaths(trail) + {first.path};
      assert first.path in files.Keys - SetOfPaths(trail);
      var inner := Expand(files, files[first.path], trail + [first.path], finished);
      WalkPush(files, trail, first.path);
      FileEdges(files, first.path);
      assert (trail + [first.path])[|trail|] == first.path;
      if inner == Cycle {
        CycleIsReachable(files, files[first.path], trail + [first.path], finished, root);
      } else {
        CycleIsReachable(files, items[1..], trail, inner.finished + [first.path], root);
      }
    } else {
      CycleIsReachable(files, items[1..], trail, finished, root);
    }
  }

  lemma FileEdges(files: Files, p: Path)
    requires p in files
    ensures forall i <- files[p] :: i.role == Project ==> Edge(files, p, i.path)
  {
    forall i <- files[p] | i.role == Project
      ensures Edge(files, p, i.path)
    {
      assert i == Item(i.path, Project);
    }
  }

  lemma ClosesCycle(files: Files, trail: seq<Path>, p: Path, root: Path)
    requires Walk(files, trail + [p]) && trail != [] && trail[0] == root && p in trail
    ensures CycleReachable(files, root)
  {
    var i: nat :| i < |trail| && trail[i] == p;
    var path := trail + [p];
    assert path[i] == path[|trail|] && path[0] == root;
  }

  /** Files finish after all their nested projects. */
  ghost predicate Topological(files: Files, finished: seq<Path>) {
    && NoDuplicates(finished)
    && forall i: nat, q: Path :: i < |finished| && Edge(files, finished[i], q) ==> q in finished[..i]
  }

  lemma TopologicalPush(files: Files, finished: seq<Path>, p: Path)
    requires Topological(files, finished) && p !in finished
    requires forall q :: Edge(files, p, q) ==> q in finished
    ensures Topological(files, finished + [p])
  {
    var more := finished + [p];
    forall i: nat, q: Path | i < |more| && Edge(files, more[i], q)
      ensures q in more[..i]
    {
      assert more[..i] == finished[..i];
      if i == |finished| {
        assert finished[..i] == finished;
      } else {
        assert Edge(files, finished[i], q);
      }
    }
  }

  /** Without a cycle and with all files loaded, the expansion visits in
  topological order, never touches the trail, and visits all it was asked to. */
  lemma {:induction false} ExpandedTopological(files: Files, items: seq<Item>, trail: seq<Path>, finished: seq<Path>)
    requires Topological(files, finished) && forall p <- trail :: p !in finished
    requires Expand(files, items, trail, finished).Expanded?
    ensures var f := Expand(files, items, trail, finished).finished;
            && Topological(files, f)
            && finished <= f
            && (forall p <- trail :: p !in f)
            && (forall i <- items :: i.role == Project ==> i.path in f)
    decreases files.Keys - SetOfPaths(trail), |items|
  {
    hide Topological, Edge;
    if items != [] {
      var first := items[0];
      assert items == [first] + items[1..];
      if first.role == Project && first.path !in trail && first.path !in finished {
        assert SetOfPaths(trail + [first.path]) == SetOfPaths(trail) + {first.path};
        assert first.path in files.Keys - SetOfPaths(trail);
        var inner := Expand(files, files[first.path], trail + [first.path], finished);
        ExpandedTopological(files, files[first.path], trail + [first.path], finished);
        assert first.path in trail + [first.path];
        assert forall p <- trail :: p in trail + [first.path];
        EdgesOf(files, first.path, inner.finished);
        TopologicalPush(files, inner.finished, first.path);
        ExpandedTopological(files, items[1..], trail, inner.finished + [first.path]);
        assert (inner.finished + [first.path])[|inner.finished|] == first.path;
      } else {
        ExpandedTopological(files, items[1..], trail, finished);
      }
    }
  }

  lemma EdgesOf(files: Files, p: Path, finished: seq<Path>)
    requires p in files && forall i <- files[p] :: i.role == Project ==> i.path in finished
    ensures forall q :: Edge(files, p, q) ==> q in finished
  {
  }

  /** Along a walk through a topological order the positions go down. */
  lemma {:induction false} WalkDescends(files: Files, finished: seq<Path>, path: seq<Path>, i: nat,
                                        j: nat) returns (a: nat, b: nat)
    requires Topological(files, finished) && Walk(files, path) && path[0] in finished && i <= j < |path|
    ensures a < |finished| && finished[a] == path[i] && b < |finished| && finished[b] == path[j]
    ensures b <= a && (i < j ==> b < a)
    decreases j
  {
    if i == j {
      if j == 0 {
        a :| 0 <= a < |finished| && finished[a] == path[0];
        b := a;
      } else {
        var x, y := WalkDescends(files, finished, path, j - 1, j - 1);
        assert Edge(files, path[j - 1], path[j - 1 + 1]);
        assert path[j] in finished[..y];
        b :| 0 <= b < y && finished[..y][b] == path[j];
        a := b;
      }
    } else {
      var x, y := WalkDescends(files, finished, path, i, j - 1);
      assert Edge(files, path[j - 1], path[j - 1 + 1]);
      assert path[j] in finished[..y];
      b :| 0 <= b < y && finished[..y][b] == path[j];
      a := x;
    }
  }

  lemma NothingMissing(files: Files, items: seq<Item>, trail: seq<Path>, finished: seq<Path>)
    requires AllLoaded(files) && forall i <- items :: i.role == Project ==> i.path in files
    ensures Expand(files, items, trail, finished) != NotLoaded
    decreases files.Keys - SetOfPaths(trail), |items|
  {
    if items != [] {
      var first := items[0];
      assert items == [first] + items[1..];
      if first.role == Project && first.path !in trail && first.path !in finished {
        assert SetOfPaths(trail + [first.path]) == SetOfPaths(trail) + {first.path};
        assert first.path in files.Keys - SetOfPaths(trail);
        var inner := Expand(files, files[first.path], trail + [first.path], finished);
        NothingMissing(files, files[first.path], trail + [first.path], finished);
        if inner.Expanded? {
          NothingMissing(files, items[1..], trail, inner.finished + [first.path]);
        }
      } else {
        NothingMissing(files, items[1..], trail, finished);
      }
    }
  }

  /** With all files loaded, a cycle is reported exactly when one is reachable from the root. */
  lemma CycleReportedIffReachable(files: Files, root: Path)
    requires root in files && AllLoaded(files)
    ensures ExpandRoot(files, root) == Cycle <==> CycleReachable(files, root)
    ensures ExpandRoot(files, root) != NotLoaded
  {
    NothingMissing(files, files[root], [root], []);
    FileEdges(files, root);
    if ExpandRoot(files, root) == Cycle {
      CycleIsReachable(files, files[root], [root], [], root);
    } else {
      RootTopological(files, root);
      var finished := ExpandRoot(files, root).finished;
      forall path: seq<Path>, i: nat, j: nat | Walk(files, path) && path[0] == root && i < j < |path|
        ensures path[i] != path[j]
      {
        var a, b := WalkDescends(files, finished, path, i, j);
      }
    }
  }

  lemma RootTopological(files: Files, root: Path)
    requires root in files && ExpandRoot(files, root).Expanded?
    ensures Topological(files, ExpandRoot(files, root).finished) && root in ExpandRoot(files, root).finished
  {
    ExpandedTopological(files, files[root], [root], []);
    var r := Expand(files, files[root], [root], []);
    EdgesOf(files, root, r.finished);
    assert root in [root];
    TopologicalPush(files, r.finished, root);
  }

  // ----- What is emitted -----

  function Leaves(items: seq<Item>): seq<Item> {
    if items == [] then []
    else if items[0].role != Project then [items[0]] + Leaves(items[1..])
    else Leaves(items[1..])
  }

  function LeavesOf(files: Files, visited: seq<Path>): multiset<Item> {
    if visited == [] then multiset{}
    else
      var last := visited[|visited| - 1];
      LeavesOf(files, visited[..|visited| - 1]) + (if last in files then multiset(Leaves(files[last])) else multiset{})
  }

  lemma {:induction false} LeavesOfConcat(files: Files, a: seq<Path>, b: seq<Path>)
    ensures LeavesOf(files, a + b) == LeavesOf(files, a) + LeavesOf(files, b)
    decreases |b|
  {
    if b == [] {
      assert a + b == a;
    } else {
      assert (a + b)[..|a + b| - 1] == a + b[..|b| - 1];
      LeavesOfConcat(files, a, b[..|b| - 1]);
    }
  }

  /** The emitted items are the own items of the list and those of every newly visited file, each once. */
  ghost predicate Emits(files: Files, items: seq<Item>, finished: seq<Path>, r: Result) {
    r.Expanded? ==>
      && finished <= r.finished
      && multiset(r.emitted) == multiset(Leaves(items)) + LeavesOf(files, r.finished[|finished|..])
  }

  lemma EmitsNested(files: Files, items: seq<Item>, finished: seq<Path>, inner: Result, rest: Result, p: Path)
    requires inner.Expanded? && rest.Expanded? && p in files
    requires items != [] && items[0] == Item(p, Project)
    requires Emits(files, files[p], finished, inner)
    requires Emits(files, items[1..], inner.finished + [p], rest)
    ensures Emits(files, items, finished, Prepended(inner.emitted, rest))
  {
    assert Leaves(items) == Leaves(items[1..]);
    var longer := inner.finished + [p];
    assert |longer| == |inner.finished| + 1;
    hide Leaves, LeavesOf;
    NewlyVisited(files, finished, inner.finished, p, rest.finished);
    hide Emits;
    assert multiset(rest.emitted) == multiset(Leaves(items[1..])) + LeavesOf(files, rest.finished[|longer|..]) by {
      EmitsMeans(files, items[1..], longer, rest);
    }
    EmitsMeans(files, files[p], finished, inner);
    JoinLeaves(inner.emitted, rest.emitted, multiset(Leaves(files[p])),
               LeavesOf(files, inner.finished[|finished|..]), multiset(Leaves(items[1..])),
               LeavesOf(files, rest.finished[|longer|..]));
    EmitsSaid(files, items, finished, Prepended(inner.emitted, rest));
  }

  lemma EmitsMeans(files: Files, items: seq<Item>, finished: seq<Path>, r: Result)
    requires Emits(files, items, finished, r) && r.Expanded?
    ensures finished <= r.finished
    ensures multiset(r.emitted) == multiset(Leaves(items)) + LeavesOf(files, r.finished[|finished|..])
  {
  }

  lemma EmitsSaid(files: Files, items: seq<Item>, finished: seq<Path>, r: Result)
    requires r.Expanded? && finished <= r.finished
    requires multiset(r.emitted) == multiset(Leaves(items)) + LeavesOf(files, r.finished[|finished|..])
    ensures Emits(files, items, finished, r)
  {
  }

  lemma EmitsOwn(files: Files, items: seq<Item>, finished: seq<Path>, rest: Result)
    requires items != [] && items[0].role != Project
    requires Emits(files, items[1..], finished, rest)
    ensures Emits(files, items, finished, Prepended([items[0]], rest))
  {
    assert Leaves(items) == [items[0]] + Leaves(items[1..]);
    hide Leaves, LeavesOf;
    if rest.Expanded? {
      JoinLeaves([items[0]], rest.emitted, multiset{items[0]}, multiset{}, multiset(Leaves(items[1..])),
                 LeavesOf(files, rest.finished[|finished|..]));
    }
  }

  lemma {:induction false} EmitsLeaves(files: Files, items: seq<Item>, trail: seq<Path>, finished: seq<Path>)
    ensures Emits(files, items, finished, Expand(files, items, trail, finished))
    decreases files.Keys - SetOfPaths(trail), |items|
  {
    hide Leaves, LeavesOf;
    if items == [] {
      assert finished[|finished|..] == [];
      NothingEmitted(files);
    } else {
      hide Emits;
      var first := items[0];
      if first.role != Project {
        EmitsLeaves(files, items[1..], trail, finished);
        EmitsOwn(files, items, finished, Expand(files, items[1..], trail, finished));
      } else if first.path in trail || (first.path !in finished && first.path !in files) {
        ErrorEmits(files, items, finished, Expand(files, items, trail, finished));
      } else if first.path in finished {
        EmitsLeaves(files, items[1..], trail, finished);
        SkipEmits(files, items, finished, Expand(files, items[1..], trail, finished));
      } else {
        assert SetOfPaths(trail + [first.path]) == SetOfPaths(trail) + {first.path};
        assert first.path in files.Keys - SetOfPaths(trail);
        var inner := Expand(files, files[first.path], trail + [first.path], finished);
        EmitsLeaves(files, files[first.path], trail + [first.path], finished);
        if inner.Expanded? {
          var rest := Expand(files, items[1..], trail, inner.finished + [first.path]);
          EmitsLeaves(files, items[1..], trail, inner.finished + [first.path]);
          if rest.Expanded? {
            EmitsNested(files, items, finished, inner, rest, first.path);
          } else {
            ErrorEmits(files, items, finished, rest);
          }
        } else {
          ErrorEmits(files, items, finished, inner);
        }
      }
    }
  }

  lemma NothingEmitted(files: Files)
    ensures multiset(Leaves([])) + LeavesOf(files, []) == multiset{}
  {
  }

  lemma ErrorEmits(files: Files, items: seq<Item>, finished: seq<Path>, r: Result)
    requires !r.Expanded?
    ensures Emits(files, items, finished, r)
  {
  }

  lemma SkipEmits(files: Files, items: seq<Item>, finished: seq<Path>, r: Result)
    requires items != [] && items[0].role == Project && Emits(files, items[1..], finished, r)
    ensures Emits(files, items, finished, r)
  {
  }

  lemma JoinLeaves(a: seq<Item>, b: seq<Item>, own: multiset<Item>, nested: multiset<Item>, later: multiset<Item>,
                   rest: multiset<Item>)
    requires multiset(a) == own + nested && multiset(b) == later + rest
    ensures multiset(a + b) == later + ((nested + own) + rest)
  {
    assert multiset(a + b) == multiset(a) + multiset(b);
  }

  lemma NewlyVisited(files: Files, a: seq<Path>, b: seq<Path>, p: Path, c: seq<Path>)
    requires a <= b && b + [p] <= c && p in files
    ensures a <= c && |b| + 1 <= |c| && (b + [p])[|b| + 1..] == []
    ensures LeavesOf(files, c[|a|..])
         == LeavesOf(files, b[|a|..]) + multiset(Leaves(files[p])) + LeavesOf(files, c[|b| + 1..])
  {
    assert c[|a|..] == (b[|a|..] + [p]) + c[|b| + 1..];
    LeavesOfConcat(files, b[|a|..] + [p], c[|b| + 1..]);
    LeavesOfConcat(files, b[|a|..], [p]);
    assert [p][..0] == [];
    assert LeavesOf(files, [p]) == LeavesOf(files, []) + multiset(Leaves(files[p]));
  }

  /** A successful expansion emits the own items of every visited file exactly
  once; the visited files are distinct, and include all reachable from the root. */
  lemma EveryFileEmittedOnce(files: Files, root: Path, path: seq<Path>, k: nat)
    requires root in files && ExpandRoot(files, root).Expanded?
    requires Walk(files, path) && path[0] == root && k < |path|
    ensures var r := ExpandRoot(files, root);
            && NoDuplicates(r.finished) && path[k] in r.finished
            && multiset(r.emitted) == LeavesOf(files, r.finished)
  {
    RootTopological(files, root);
    EmitsLeaves(files, files[root], [root], []);
    var r := Expand(files, files[root], [root], []);
    assert r.finished[0..] == r.finished;
    LeavesOfConcat(files, r.finished, [root]);
    assert [root][..0] == [];
    assert LeavesOf(files, [root]) == LeavesOf(files, []) + multiset(Leaves(files[root]));
    var a, b := WalkDescends(files, ExpandRoot(files, root).finished, path, k, k);
    assert ExpandRoot(files, root).finished[a] in ExpandRoot(files, root).finished;
  }

  /** The fast path: a root without nested projects publishes its items as they are. */
  lemma {:induction false} FastPathAgrees(files: Files, items: seq<Item>, trail: seq<Path>, finished: seq<Path>)
    requires forall i <- items :: i.role != Project
    ensures Expand(files, items, trail, finished) == Expanded(items, finished)
  {
    if items != [] {
      assert items == [items[0]] + items[1..];
      FastPathAgrees(files, items[1..], trail, finished);
    }
  }

  // ----- After the loading phase -----

  /** The configurations the traversal works on: what the workers left in the cache. */
  function LoadedFiles(cache: map<Path, Node>): Files {
    map p | p in cache && cache[p].loaded :: cache[p].items
  }

  /** When all workers are gone and nothing failed, the traversal finds every file it
  asks for, each with its own content, and reports a cycle exactly when one is
  reachable from the root. */
  lemma ComposedAfterLoading(files: Files, root: Path, items: seq<Item>, states: seq<Machine>,
                             moves: seq<(nat, Action)>, n: nat)
    requires Run(files, root, items, states, moves) && n < |states|
    requires states[n].workers != [] && forall w <- states[n].workers :: w == Gone
    requires !states[n].pool.broken && !states[n].pool.failed
    ensures var loaded := LoadedFiles(states[n].pool.cache);
            && root in loaded && loaded[root] == items
            && (forall p <- loaded :: p != root ==> p in files && loaded[p] == files[p])
            && AllLoaded(loaded)
            && ExpandRoot(loaded, root) != NotLoaded
            && (ExpandRoot(loaded, root) == Cycle <==> CycleReachable(loaded, root))
  {
    RunsKeepInv(files, root, items, states, moves, n);
    assert states[n].workers[0] in states[n].workers;
    StoppedOnceGone(files, root, items, states, moves, n);
    NoneActive(states[n].workers);
    RootKept(files, root, items, states, moves, n);
    var m := states[n];
    var loaded := LoadedFiles(m.pool.cache);
    hide Run, Accounted, ExpandRoot, CycleReachable;
    forall p <- m.pool.cache
      ensures m.pool.cache[p].loaded && (p != root ==> p in files && m.pool.cache[p].items == files[p])
    {
      FinishedLoaded(files, root, m, p);
    }
    CycleReportedIffReachable(loaded, root);
  }
}
