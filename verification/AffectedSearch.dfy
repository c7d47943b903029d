/** The breadth-first search behind `homegraph affected`: which test files does a
    list of changed files reach through the file-dependents graph? */
module AffectedSearch {

  type File = string

  /** The files that depend on each file; a file without an entry has no dependents. */
  type Graph = map<File, seq<File>>

  /** The parsed `--depth` option. A non-numeric option parses to not-a-number, and no depth compares
      greater than or equal to it. */
  datatype Depth = Limit(n: int) | NotANumber {
    predicate Reached(d: nat) {
      Limit? && d >= n
    }
  }

  datatype Entry = Entry(file: File, depth: nat)

  function Dependents(g: Graph, f: File): seq<File> {
    if f in g then g[f] else []
  }

  ghost predicate StepAt(g: Graph, isTest: File -> bool, w: seq<File>, i: nat)
    requires i + 1 < |w|
  {
    !isTest(w[i]) && w[i + 1] in Dependents(g, w[i])
  }

  /** A dependents path: every step goes from a file to one of its dependents, and only non-test files
      are stepped from. */
  ghost predicate IsWalk(g: Graph, isTest: File -> bool, w: seq<File>) {
    |w| > 0 && forall i | 0 <= i < |w| - 1 :: StepAt(g, isTest, w, i)
  }

  ghost predicate WalkBetween(g: Graph, isTest: File -> bool, from: File, to: File, w: seq<File>) {
    IsWalk(g, isTest, w) && w[0] == from && w[|w| - 1] == to
  }

  /** `to` is reached from `from` by a path of at least one step, and of at most `n` when the limit is `n`. */
  ghost predicate Reachable(g: Graph, isTest: File -> bool, from: File, to: File, limit: Depth) {
    exists w :: WalkBetween(g, isTest, from, to, w) && |w| >= 2 && (limit.Limit? ==> |w| - 1 <= limit.n)
  }

  /** Every file some file of the graph lists as a dependent. */
  function AllDependents(g: Graph): set<File> {
    set f, d | f in g && d in g[f] :: d
  }

  /** What the search has recorded once its queue is empty: each visited file carries the length of some path
      to it, and every non-test file short of the limit has passed its own distance plus one on. */
  ghost predicate Settled(g: Graph, isTest: File -> bool, start: File, limit: Depth, dist: map<File, nat>) {
    && start in dist && dist[start] == 0
    && forall f, d | f in dist && !isTest(f) && !limit.Reached(dist[f]) && d in Dependents(g, f) ::
         d in dist && dist[d] <= dist[f] + 1
  }

  /** No path to a file is shorter than the distance recorded for it, so the visited set never hides a
      shorter path: every path within the limit ends in a visited file. */
  lemma {:induction false} WalkIsSettled(g: Graph, isTest: File -> bool, start: File, limit: Depth,
                                         dist: map<File, nat>, w: seq<File>)
    requires Settled(g, isTest, start, limit, dist)
    requires IsWalk(g, isTest, w) && w[0] == start
    requires |w| >= 2 ==> !limit.Reached(|w| - 2)
    ensures w[|w| - 1] in dist && dist[w[|w| - 1]] <= |w| - 1
    decreases |w|
  {
    if |w| == 1 {
    } else {
      var v := w[..|w| - 1];
      forall i | 0 <= i < |v| - 1
        ensures StepAt(g, isTest, v, i)
      {
        assert StepAt(g, isTest, w, i);
      }
      WalkIsSettled(g, isTest, start, limit, dist, v);
      var f := v[|v| - 1];
      assert StepAt(g, isTest, w, |w| - 2);
    }
  }

  lemma ExtendWalk(g: Graph, isTest: File -> bool, start: File, f: File, d: File, w: seq<File>)
    requires WalkBetween(g, isTest, start, f, w) && !isTest(f) && d in Dependents(g, f)
    ensures WalkBetween(g, isTest, start, d, w + [d])
  {
    var v := w + [d];
    forall i | 0 <= i < |v| - 1
      ensures StepAt(g, isTest, v, i)
    {
      if i < |w| - 1 {
        assert StepAt(g, isTest, w, i);
      }
    }
  }

  /** The ghost record the search keeps: a path of the recorded length to every visited file. */
  ghost predicate Recorded(g: Graph, isTest: File -> bool, start: File, limit: Depth,
                           dist: map<File, nat>, paths: map<File, seq<File>>) {
    && dist.Keys == paths.Keys
    && forall f | f in dist ::
         && WalkBetween(g, isTest, start, f, paths[f])
         && |paths[f]| == dist[f] + 1
         && (f != start ==> dist[f] >= 1 && !limit.Reached(dist[f] - 1))
  }

  /** The queue is sorted by depth and holds visited non-test files at their recorded depths. */
  ghost predicate QueueInOrder(isTest: File -> bool, queue: seq<Entry>, dist: map<File, nat>) {
    && (forall i | 0 <= i < |queue| ::
          queue[i].file in dist && dist[queue[i].file] == queue[i].depth && !isTest(queue[i].file))
    && (forall i, j | 0 <= i < j < |queue| :: queue[i].depth <= queue[j].depth)
  }

  /** A visited non-test file is either still queued or has passed its distance on. */
  ghost predicate Handled(g: Graph, isTest: File -> bool, limit: Depth, queue: seq<Entry>, dist: map<File, nat>, f: File)
    requires f in dist
  {
    || (exists i :: 0 <= i < |queue| && queue[i].file == f)
    || limit.Reached(dist[f])
    || (forall d | d in Dependents(g, f) :: d in dist && dist[d] <= dist[f] + 1)
  }

  ghost predicate AllHandled(g: Graph, isTest: File -> bool, limit: Depth, queue: seq<Entry>, dist: map<File, nat>,
                             except: set<File>) {
    forall f {:trigger Handled(g, isTest, limit, queue, dist, f)} | f in dist && !isTest(f) && f !in except ::
      Handled(g, isTest, limit, queue, dist, f)
  }

  /** No queued entry is shallower than `depth`, and nothing visited is more than one deeper. */
  ghost predicate Frontier(queue: seq<Entry>, dist: map<File, nat>, depth: nat) {
    && (forall i | 0 <= i < |queue| :: depth <= queue[i].depth)
    && (forall f | f in dist :: dist[f] <= depth + 1)
  }

  /** What holds between two dequeues. */
  ghost predicate Between(g: Graph, isTest: File -> bool, start: File, limit: Depth,
                          queue: seq<Entry>, dist: map<File, nat>, paths: map<File, seq<File>>) {
    && start in dist && dist[start] == 0
    && Recorded(g, isTest, start, limit, dist, paths)
    && QueueInOrder(isTest, queue, dist)
    && (|queue| > 0 ==> Frontier(queue, dist, queue[0].depth))
    && AllHandled(g, isTest, limit, queue, dist, {})
  }

  /** What holds while the dependents of `current` are being scanned, the first `k` of them done. */
  ghost predicate Scanning(g: Graph, isTest: File -> bool, start: File, limit: Depth, current: Entry, k: nat,
                           queue: seq<Entry>, dist: map<File, nat>, paths: map<File, seq<File>>)
    requires k <= |Dependents(g, current.file)|
  {
    && start in dist && dist[start] == 0
    && current.file in dist && dist[current.file] == current.depth && !isTest(current.file)
    && Recorded(g, isTest, start, limit, dist, paths)
    && QueueInOrder(isTest, queue, dist)
    && Frontier(queue, dist, current.depth)
    && AllHandled(g, isTest, limit, queue, dist, {current.file})
    && (forall j | 0 <= j < k :: Dependents(g, current.file)[j] in dist)
  }

  lemma Dequeue(g: Graph, isTest: File -> bool, start: File, limit: Depth,
                queue: seq<Entry>, dist: map<File, nat>, paths: map<File, seq<File>>)
    requires |queue| > 0 && Between(g, isTest, start, limit, queue, dist, paths)
    ensures Scanning(g, isTest, start, limit, queue[0], 0, queue[1..], dist, paths)
  {
    var rest := queue[1..];
    forall f | f in dist && !isTest(f) && f != queue[0].file
      ensures Handled(g, isTest, limit, rest, dist, f)
    {
      assert Handled(g, isTest, limit, queue, dist, f);
      if i :| 0 <= i < |queue| && queue[i].file == f {
        assert rest[i - 1].file == f;
      }
    }
  }

  lemma DiscoverRecords(g: Graph, isTest: File -> bool, start: File, limit: Depth, file: File, dep: File,
                        dist: map<File, nat>, paths: map<File, seq<File>>)
    requires Recorded(g, isTest, start, limit, dist, paths)
    requires file in dist && !isTest(file) && dep in Dependents(g, file) && dep !in dist && !limit.Reached(dist[file])
    ensures Recorded(g, isTest, start, limit, dist[dep := dist[file] + 1], paths[dep := paths[file] + [dep]])
  {
    ExtendWalk(g, isTest, start, file, dep, paths[file]);
  }

  /** A newly discovered dependent keeps the queue in order because it joins at the back, one deeper than the
      entry being expanded, which no queued entry is shallower than. */
  lemma DiscoverQueues(isTest: File -> bool, queue: seq<Entry>, dist: map<File, nat>, depth: nat, dep: File)
    requires QueueInOrder(isTest, queue, dist) && Frontier(queue, dist, depth) && dep !in dist
    ensures var dist' := dist[dep := depth + 1];
            var queue' := if isTest(dep) then queue else queue + [Entry(dep, depth + 1)];
            QueueInOrder(isTest, queue', dist') && Frontier(queue', dist', depth)
  {
  }

  lemma DiscoverHandles(g: Graph, isTest: File -> bool, limit: Depth, queue: seq<Entry>, dist: map<File, nat>,
                        queue': seq<Entry>, dep: File, current: Entry)
    requires dep !in dist && AllHandled(g, isTest, limit, queue, dist, {current.file})
    requires queue' == if isTest(dep) then queue else queue + [Entry(dep, current.depth + 1)]
    ensures AllHandled(g, isTest, limit, queue', dist[dep := current.depth + 1], {current.file})
  {
    var dist' := dist[dep := current.depth + 1];
    forall f | f in dist' && !isTest(f) && f != current.file
      ensures Handled(g, isTest, limit, queue', dist', f)
    {
      if f == dep {
        assert queue'[|queue'| - 1].file == dep;
      } else {
        assert Handled(g, isTest, limit, queue, dist, f);
        if i :| 0 <= i < |queue| && queue[i].file == f {
          assert queue'[i].file == f;
        }
      }
    }
  }

  lemma Discover(g: Graph, isTest: File -> bool, start: File, limit: Depth, current: Entry, k: nat,
                 queue: seq<Entry>, dist: map<File, nat>, paths: map<File, seq<File>>,
                 dep: File, queue': seq<Entry>, dist': map<File, nat>, paths': map<File, seq<File>>)
    requires k < |Dependents(g, current.file)| && !limit.Reached(current.depth)
    requires Scanning(g, isTest, start, limit, current, k, queue, dist, paths)
    requires dep == Dependents(g, current.file)[k] && dep !in dist
    requires queue' == if isTest(dep) then queue else queue + [Entry(dep, current.depth + 1)]
    requires dist' == dist[dep := current.depth + 1] && paths' == paths[dep := paths[current.file] + [dep]]
    ensures Scanning(g, isTest, start, limit, current, k + 1, queue', dist', paths')
  {
    hide Recorded, QueueInOrder, Frontier, AllHandled;
    DiscoverRecords(g, isTest, start, limit, current.file, dep, dist, paths);
    DiscoverQueues(isTest, queue, dist, current.depth, dep);
    DiscoverHandles(g, isTest, limit, queue, dist, queue', dep, current);
  }

  lemma Expanded(g: Graph, isTest: File -> bool, start: File, limit: Depth, current: Entry,
                 queue: seq<Entry>, dist: map<File, nat>, paths: map<File, seq<File>>)
    requires Scanning(g, isTest, start, limit, current, if limit.Reached(current.depth) then 0 else |Dependents(g, current.file)|,
                      queue, dist, paths)
    ensures Between(g, isTest, start, limit, queue, dist, paths)
  {
  }

  /** With the queue empty, exactly the files within the limit have been visited. */
  lemma SearchIsComplete(g: Graph, isTest: File -> bool, start: File, limit: Depth,
                         dist: map<File, nat>, paths: map<File, seq<File>>, f: File)
    requires Between(g, isTest, start, limit, [], dist, paths)
    requires f != start
    ensures f in dist <==> Reachable(g, isTest, start, f, limit)
  {
    if f in dist {
      assert WalkBetween(g, isTest, start, f, paths[f]);
    } else if Reachable(g, isTest, start, f, limit) {
      forall e, d | e in dist && !isTest(e) && !limit.Reached(dist[e]) && d in Dependents(g, e)
        ensures d in dist && dist[d] <= dist[e] + 1
      {
        assert Handled(g, isTest, limit, [], dist, e);
      }
      var w :| WalkBetween(g, isTest, start, f, w) && |w| >= 2 && (limit.Limit? ==> |w| - 1 <= limit.n);
      WalkIsSettled(g, isTest, start, limit, dist, w);
    }
  }

  lemma InAllDependents(g: Graph, f: File, k: nat)
    requires k < |Dependents(g, f)|
    ensures Dependents(g, f)[k] in AllDependents(g)
  {
    assert g[f][k] in g[f];
  }

  /** The executable state of one search: the queue, the visited files, and the two result sets. */
  ghost predicate Tracks(isTest: File -> bool, start: File, visited: set<File>, found: set<File>, seen: set<File>,
                         dist: map<File, nat>) {
    && visited == dist.Keys
    && (forall f :: f in seen <==> f in visited && f != start)
    && (forall f :: f in found <==> f in visited && isTest(f))
  }

  /** Scans the dependents of one dequeued file: each one not visited yet is recorded, and queued unless it is a test. */
  method Expand(g: Graph, isTest: File -> bool, start: File, limit: Depth, current: Entry,
                queue0: seq<Entry>, visited0: set<File>, found0: set<File>, seen0: set<File>,
                ghost dist0: map<File, nat>, ghost paths0: map<File, seq<File>>)
    returns (queue: seq<Entry>, visited: set<File>, found: set<File>, seen: set<File>,
             ghost dist: map<File, nat>, ghost paths: map<File, seq<File>>)
    requires !limit.Reached(current.depth)
    requires Tracks(isTest, start, visited0, found0, seen0, dist0)
    requires Scanning(g, isTest, start, limit, current, 0, queue0, dist0, paths0)
    ensures Tracks(isTest, start, visited, found, seen, dist)
    ensures Scanning(g, isTest, start, limit, current, |Dependents(g, current.file)|, queue, dist, paths)
    ensures visited == visited0 ==> queue == queue0
    ensures visited0 <= visited && visited - visited0 <= AllDependents(g)
  {
    queue, visited, found, seen := queue0, visited0, found0, seen0;
    dist, paths := dist0, paths0;
    var dependents := Dependents(g, current.file);
    for k := 0 to |dependents|
      invariant Tracks(isTest, start, visited, found, seen, dist)
      invariant Scanning(g, isTest, start, limit, current, k, queue, dist, paths)
      invariant visited == visited0 ==> queue == queue0
      invariant visited0 <= visited && visited - visited0 <= AllDependents(g)
    {
      var dep := dependents[k];
      if dep in visited {
        continue;
      }
      ghost var queueThen, distThen, pathsThen := queue, dist, paths;
      InAllDependents(g, current.file, k);
      visited := visited + {dep};
      seen := seen + {dep};
      paths := paths[dep := paths[current.file] + [dep]];
      dist := dist[dep := current.depth + 1];
      assert dist.Keys == distThen.Keys + {dep};
      if isTest(dep) {
        found := found + {dep};
      } else {
        queue := queue + [Entry(dep, current.depth + 1)];
      }
      Discover(g, isTest, start, limit, current, k, queueThen, distThen, pathsThen, dep, queue, dist, paths);
    }
  }

  lemma StartsBetween(g: Graph, isTest: File -> bool, start: File, limit: Depth)
    requires !isTest(start)
    ensures Between(g, isTest, start, limit, [Entry(start, 0)], map[start := 0], map[start := [start]])
  {
    assert [Entry(start, 0)][0].file == start;
  }

  /** The search from one changed non-test file. `found` is the tests it reaches, `seen` everything it visits
      except the changed file itself. It ends on every graph, cyclic ones included. */
  method SearchFrom(g: Graph, isTest: File -> bool, start: File, limit: Depth)
    returns (found: set<File>, seen: set<File>)
    requires !isTest(start)
    ensures forall t :: t in found <==> isTest(t) && Reachable(g, isTest, start, t, limit)
    ensures forall f :: f in seen <==> f != start && Reachable(g, isTest, start, f, limit)
  {
    StartsBetween(g, isTest, start, limit);
    hide Recorded, QueueInOrder, AllHandled, Frontier, Reachable;
    found, seen := {}, {};
    var queue := [Entry(start, 0)];
    var visited := {start};
    ghost var dist: map<File, nat>, paths := map[start := 0], map[start := [start]];
    while |queue| > 0
      invariant Tracks(isTest, start, visited, found, seen, dist)
      invariant Between(g, isTest, start, limit, queue, dist, paths)
      decreases AllDependents(g) - visited, |queue|
    {
      var current := queue[0];
      Dequeue(g, isTest, start, limit, queue, dist, paths);
      queue := queue[1..];
      if limit.Reached(current.depth) {
        Expanded(g, isTest, start, limit, current, queue, dist, paths);
        continue;
      }
      ghost var before := visited;
      queue, visited, found, seen, dist, paths :=
        Expand(g, isTest, start, limit, current, queue, visited, found, seen, dist, paths);
      Expanded(g, isTest, start, limit, current, queue, dist, paths);
      if f :| f in visited && f !in before {
        assert f in AllDependents(g) - before;
      }
    }
    forall f | f != start
      ensures f in visited <==> Reachable(g, isTest, start, f, limit)
    {
      SearchIsComplete(g, isTest, start, limit, dist, paths, f);
    }
  }

  /** The whole command: the tests among the changed files, plus the tests reached from the other ones. */
  method Affected(g: Graph, isTest: File -> bool, changed: seq<File>, limit: Depth)
    returns (tests: set<File>, traversed: set<File>)
    ensures forall t :: t in tests <==>
              isTest(t) && (t in changed || exists f :: f in changed && !isTest(f) && Reachable(g, isTest, f, t, limit))
    ensures forall d :: d in traversed <==>
              exists f :: f in changed && !isTest(f) && d != f && Reachable(g, isTest, f, d, limit)
  {
    tests, traversed := {}, {};
    for k := 0 to |changed|
      invariant forall t :: t in tests <==>
                  isTest(t) && (t in changed[..k] || exists f :: f in changed[..k] && !isTest(f) && Reachable(g, isTest, f, t, limit))
      invariant forall d :: d in traversed <==>
                  exists f :: f in changed[..k] && !isTest(f) && d != f && Reachable(g, isTest, f, d, limit)
    {
      assert changed[..k + 1] == changed[..k] + [changed[k]];
      var file := changed[k];
      if isTest(file) {
        tests := tests + {file};
        continue;
      }
      var found, seen := SearchFrom(g, isTest, file, limit);
      tests := tests + found;
      traversed := traversed + seen;
    }
    assert changed[..|changed|] == changed;
  }
}
