/**
 `codegraph affected`: from each changed non-test file, a breadth-first walk over
 the files that depend on it, cut off at a depth, with test files as leaves.
 */
module Affected {
  type File = string

  /** The files that directly depend on a file, as the store lists them: in any order, with any repetition. */
  type Dependents = map<File, seq<File>>

  function Of(dependents: Dependents, file: File): seq<File>
  {
    if file in dependents then dependents[file] else []
  }

  // ----- What the walk is meant to compute

  /** `path` goes from `root` to its last element by dependents steps, and only its last element may be a test. */
  ghost predicate IsPath(dependents: Dependents, isTest: File -> bool, root: File, path: seq<File>)
  {
    && path != [] && path[0] == root
    && (forall k :: 0 <= k < |path| - 1 ==> path[k] in dependents && path[k + 1] in dependents[path[k]])
    && (forall k :: 0 <= k < |path| - 1 ==> !isTest(path[k]))
  }

  /** `file` is reached from `root` in exactly `steps` steps through non-test files. */
  ghost predicate ReachedIn(dependents: Dependents, isTest: File -> bool, root: File, file: File, steps: nat)
  {
    exists path :: IsPath(dependents, isTest, root, path) && |path| == steps + 1 && path[steps] == file
  }

  ghost predicate Within(dependents: Dependents, isTest: File -> bool, root: File, file: File, depth: nat)
  {
    exists steps: nat :: steps <= depth && ReachedIn(dependents, isTest, root, file, steps)
  }

  ghost predicate Traversed(dependents: Dependents, isTest: File -> bool, changed: seq<File>, depth: nat, file: File)
  {
    exists root :: root in changed && !isTest(root) && root != file && Within(dependents, isTest, root, file, depth)
  }

  /** Every file that depends on anything. */
  ghost function Known(dependents: Dependents): set<File>
  {
    set f, w | f in dependents && w in dependents[f] :: w
  }

  // ----- Paths grow by one step

  lemma ReachedZero(dependents: Dependents, isTest: File -> bool, root: File, file: File)
    ensures ReachedIn(dependents, isTest, root, file, 0) <==> file == root
  {
    if file == root {
      assert IsPath(dependents, isTest, root, [root]);
    }
  }

  lemma ReachedOneMore(dependents: Dependents, isTest: File -> bool, root: File, via: File, file: File, steps: nat)
    requires ReachedIn(dependents, isTest, root, via, steps) && !isTest(via) && file in Of(dependents, via)
    ensures ReachedIn(dependents, isTest, root, file, steps + 1)
  {
    var path :| IsPath(dependents, isTest, root, path) && |path| == steps + 1 && path[steps] == via;
    assert IsPath(dependents, isTest, root, path + [file]);
  }

  lemma ReachedVia(dependents: Dependents, isTest: File -> bool, root: File, file: File, steps: nat) returns (via: File)
    requires ReachedIn(dependents, isTest, root, file, steps + 1)
    ensures ReachedIn(dependents, isTest, root, via, steps) && !isTest(via) && file in Of(dependents, via)
  {
    var path :| IsPath(dependents, isTest, root, path) && |path| == steps + 2 && path[steps + 1] == file;
    via := path[steps];
    assert IsPath(dependents, isTest, root, path[..steps + 1]);
  }

  // ----- The walk

  datatype Entry = Entry(file: File, depth: nat)

  /** The walk's state: what is visited, at which distance, and what is still queued. */
  ghost predicate Walking(dependents: Dependents, isTest: File -> bool, root: File, depth: nat,
                          dist: map<File, nat>, queue: seq<Entry>)
  {
    && root in dist && dist[root] == 0
    && (forall v :: v in dist ==> dist[v] <= depth && ReachedIn(dependents, isTest, root, v, dist[v]))
    && (forall e :: e in queue ==> e.file in dist && dist[e.file] == e.depth && !isTest(e.file))
    && (forall j, k :: 0 <= j < k < |queue| ==> queue[j].depth <= queue[k].depth && queue[j].file != queue[k].file)
    && (queue != [] ==> forall v :: v in dist ==> dist[v] <= queue[0].depth + 1)
  }

  /** `v` was expanded: its dependents are visited, none later than one step after it. */
  ghost predicate Expanded(dependents: Dependents, dist: map<File, nat>, v: File)
    requires v in dist
  {
    forall w :: w in Of(dependents, v) ==> w in dist && dist[w] <= dist[v] + 1
  }

  /** Everything visited and no longer queued was expanded, unless it is a test or lies at the cut-off. */
  ghost predicate Settled(dependents: Dependents, isTest: File -> bool, depth: nat, dist: map<File, nat>,
                          open: set<File>)
  {
    forall v :: v in dist && v !in open && !isTest(v) && dist[v] < depth ==> Expanded(dependents, dist, v)
  }

  ghost function Files(queue: seq<Entry>): set<File>
  {
    set e | e in queue :: e.file
  }

  /** With nothing queued, the distances are the shortest distances of exactly the files within `depth`. */
  lemma {:induction false} DistancesAreShortest(dependents: Dependents, isTest: File -> bool, root: File, depth: nat,
                                             dist: map<File, nat>, file: File, steps: nat)
    requires Walking(dependents, isTest, root, depth, dist, []) && Settled(dependents, isTest, depth, dist, {})
    requires steps <= depth && ReachedIn(dependents, isTest, root, file, steps)
    ensures file in dist && dist[file] <= steps
    decreases steps
  {
    if steps == 0 {
      ReachedZero(dependents, isTest, root, file);
    } else {
      var via := ReachedVia(dependents, isTest, root, file, steps - 1);
      DistancesAreShortest(dependents, isTest, root, depth, dist, via, steps - 1);
      assert Expanded(dependents, dist, via);
    }
  }

  /** Visiting one new dependent of the head of the queue keeps the walk's invariants. */
  lemma VisitKeepsWalking(dependents: Dependents, isTest: File -> bool, root: File, depth: nat,
                          dist: map<File, nat>, queue: seq<Entry>, file: File)
    requires queue != [] && queue[0].depth < depth && file in Of(dependents, queue[0].file) && file !in dist
    requires Walking(dependents, isTest, root, depth, dist, queue)
    ensures Walking(dependents, isTest, root, depth, dist[file := queue[0].depth + 1],
                    if isTest(file) then queue else queue + [Entry(file, queue[0].depth + 1)])
  {
    assert queue[0] in queue;
    ReachedOneMore(dependents, isTest, root, queue[0].file, file, queue[0].depth);
  }

  lemma VisitKeepsSettled(dependents: Dependents, isTest: File -> bool, depth: nat,
                          dist: map<File, nat>, queue: seq<Entry>, file: File, steps: nat)
    requires Settled(dependents, isTest, depth, dist, Files(queue)) && file !in dist
    ensures Settled(dependents, isTest, depth, dist[file := steps],
                    Files(if isTest(file) then queue else queue + [Entry(file, steps)]))
  {
    var queue' := if isTest(file) then queue else queue + [Entry(file, steps)];
    assert !isTest(file) ==> Entry(file, steps) in queue';
    assert Files(queue) <= Files(queue') by {
      assert forall e :: e in queue ==> e in queue';
    }
    forall v | v in dist && v !in Files(queue') && !isTest(v) && dist[v] < depth
      ensures Expanded(dependents, dist[file := steps], v)
    {
      assert Expanded(dependents, dist, v);
    }
  }

  /** Once all its dependents are visited the head of the queue is expanded and can go. */
  lemma DequeueKeepsWalking(dependents: Dependents, isTest: File -> bool, root: File, depth: nat,
                            dist: map<File, nat>, head: Entry, rest: seq<Entry>)
    requires Walking(dependents, isTest, root, depth, dist, [head] + rest)
    requires Settled(dependents, isTest, depth, dist, Files([head] + rest))
    requires head.depth < depth ==> forall w :: w in Of(dependents, head.file) ==> w in dist
    ensures Walking(dependents, isTest, root, depth, dist, rest)
    ensures Settled(dependents, isTest, depth, dist, Files(rest))
  {
    var queue := [head] + rest;
    assert queue[0] == head && forall k :: 0 <= k < |rest| ==> rest[k] == queue[k + 1];
    forall v | v in dist && v !in Files(rest) && !isTest(v) && dist[v] < depth
      ensures Expanded(dependents, dist, v)
    {
      if v != head.file {
        assert v !in Files(queue);
      }
    }
  }

  /** What the walk has accumulated over all roots so far. */
  datatype Found = Found(affected: set<File>, traversed: set<File>)

  function Record(isTest: File -> bool, found: Found, file: File): Found
  {
    Found(if isTest(file) then found.affected + {file} else found.affected, found.traversed + {file})
  }

  /** `later` is `found` with exactly the files of `added` recorded on top. */
  ghost predicate Recorded(isTest: File -> bool, found: Found, added: set<File>, later: Found)
  {
    && later.traversed == found.traversed + added
    && (forall f :: f in later.affected <==> f in found.affected || (f in added && isTest(f)))
  }

  lemma RecordOne(isTest: File -> bool, found: Found, seen: set<File>, visited: set<File>, later: Found, file: File)
    requires seen <= visited && file !in visited && Recorded(isTest, found, visited - seen, later)
    ensures Recorded(isTest, found, visited + {file} - seen, Record(isTest, later, file))
  {
  }

  function Enqueue(isTest: File -> bool, queue: seq<Entry>, file: File, steps: nat): seq<Entry>
  {
    if isTest(file) then queue else queue + [Entry(file, steps)]
  }

  /** The invariant while the head of the queue is being expanded. */
  ghost predicate Underway(dependents: Dependents, isTest: File -> bool, root: File, depth: nat,
                           dist: map<File, nat>, queue: seq<Entry>)
  {
    Walking(dependents, isTest, root, depth, dist, queue) && Settled(dependents, isTest, depth, dist, Files(queue))
  }

  lemma VisitOne(dependents: Dependents, isTest: File -> bool, root: File, depth: nat,
                 dist: map<File, nat>, current: Entry, rest: seq<Entry>, file: File)
    requires current.depth < depth && file in Of(dependents, current.file) && file !in dist
    requires Underway(dependents, isTest, root, depth, dist, [current] + rest)
    ensures Underway(dependents, isTest, root, depth, dist[file := current.depth + 1],
                     [current] + Enqueue(isTest, rest, file, current.depth + 1))
  {
    hide Walking, Settled, Files;
    VisitKeepsWalking(dependents, isTest, root, depth, dist, [current] + rest, file);
    VisitKeepsSettled(dependents, isTest, depth, dist, [current] + rest, file, current.depth + 1);
    var entry := Entry(file, current.depth + 1);
    assert [current] + (rest + [entry]) == ([current] + rest) + [entry];
  }

  /** Visit one dependent of the file being expanded, if it is new. */
  method Visit(file: File, current: Entry, rest: seq<Entry>, ghost dependents: Dependents, isTest: File -> bool,
               ghost root: File, ghost depth: nat, visited: set<File>, ghost seen: set<File>,
               ghost start: Found, found: Found, ghost dist: map<File, nat>)
    returns (visited': set<File>, queue: seq<Entry>, found': Found, ghost dist': map<File, nat>)
    requires current.depth < depth && file in Of(dependents, current.file)
    requires visited == dist.Keys && Underway(dependents, isTest, root, depth, dist, [current] + rest)
    requires seen <= visited && Recorded(isTest, start, visited - seen, found)
    ensures visited' == dist'.Keys == visited + {file}
    ensures visited <= visited' && file in visited'
    ensures Underway(dependents, isTest, root, depth, dist', [current] + queue)
    ensures Recorded(isTest, start, visited' - seen, found')
    ensures file in visited ==> queue == rest
  {
    if file in visited {
      return visited, rest, found, dist;
    }
    VisitOne(dependents, isTest, root, depth, dist, current, rest, file);
    RecordOne(isTest, start, seen, visited, found, file);
    visited' := visited + {file};
    queue := Enqueue(isTest, rest, file, current.depth + 1);
    found' := Record(isTest, found, file);
    dist' := dist[file := current.depth + 1];
  }

  ghost predicate VisitedUpTo(listed: seq<File>, j: nat, visited: set<File>)
    requires j <= |listed|
  {
    forall k :: 0 <= k < j ==> listed[k] in visited
  }

  lemma VisitedOneMore(listed: seq<File>, j: nat, before: set<File>, visited: set<File>)
    requires j < |listed| && VisitedUpTo(listed, j, before) && before <= visited && listed[j] in visited
    ensures VisitedUpTo(listed, j + 1, visited)
  {
  }

  /** Visit the dependents of one dequeued file. */
  method Expand(current: Entry, rest: seq<Entry>, dependents: Dependents, isTest: File -> bool,
                ghost root: File, depth: nat, seen: set<File>, found: Found, ghost dist: map<File, nat>)
    returns (visited: set<File>, queue: seq<Entry>, later: Found, ghost dist': map<File, nat>)
    requires current.depth < depth && seen == dist.Keys
    requires Underway(dependents, isTest, root, depth, dist, [current] + rest)
    ensures visited == dist'.Keys && seen <= visited
    ensures Underway(dependents, isTest, root, depth, dist', queue)
    ensures Recorded(isTest, found, visited - seen, later)
    ensures visited == seen ==> queue == rest
  {
    visited, queue, later, dist' := VisitAll(current, rest, dependents, isTest, root, depth, seen, found, dist);
    DequeueKeepsWalking(dependents, isTest, root, depth, dist', current, queue);
  }

  method VisitAll(current: Entry, rest: seq<Entry>, dependents: Dependents, isTest: File -> bool,
                  ghost root: File, ghost depth: nat, seen: set<File>, found: Found, ghost dist: map<File, nat>)
    returns (visited: set<File>, queue: seq<Entry>, later: Found, ghost dist': map<File, nat>)
    requires current.depth < depth && seen == dist.Keys
    requires Underway(dependents, isTest, root, depth, dist, [current] + rest)
    ensures visited == dist'.Keys && seen <= visited
    ensures Underway(dependents, isTest, root, depth, dist', [current] + queue)
    ensures VisitedUpTo(Of(dependents, current.file), |Of(dependents, current.file)|, visited)
    ensures Recorded(isTest, found, visited - seen, later)
    ensures visited == seen ==> queue == rest
  {
    hide Walking, Settled;
    visited, queue, later, dist' := seen, rest, found, dist;
    var listed := Of(dependents, current.file);
    for j := 0 to |listed|
      invariant visited == dist'.Keys && seen <= visited
      invariant Underway(dependents, isTest, root, depth, dist', [current] + queue)
      invariant VisitedUpTo(listed, j, visited)
      invariant Recorded(isTest, found, visited - seen, later)
      invariant visited == seen ==> queue == rest
    {
      ghost var before := visited;
      visited, queue, later, dist' := Visit(listed[j], current, queue, dependents, isTest, root, depth,
                                            visited, seen, found, later, dist');
      VisitedOneMore(listed, j, before, visited);
    }
  }

  /** The breadth-first walk from one changed file: everything it visits besides the root is
      recorded, and what it visits is exactly what lies within `depth`, at its shortest distance. */
  method WalkFrom(root: File, dependents: Dependents, isTest: File -> bool, depth: nat, found: Found)
    returns (visited: set<File>, later: Found, ghost dist: map<File, nat>)
    requires !isTest(root)
    ensures forall v :: v in visited <==> Within(dependents, isTest, root, v, depth)
    ensures Recorded(isTest, found, visited - {root}, later)
    ensures visited == dist.Keys && root in visited
    ensures forall v, n: nat :: v in visited && n < dist[v] ==> !ReachedIn(dependents, isTest, root, v, n)
    ensures forall v :: v in visited ==> ReachedIn(dependents, isTest, root, v, dist[v])
  {
    hide Walking, Settled, Recorded;
    visited, later, dist := {root}, found, map[root := 0];
    var queue := [Entry(root, 0)];
    StartWalk(dependents, isTest, root, depth, found);
    while queue != []
      invariant visited == dist.Keys && root in visited
      invariant Underway(dependents, isTest, root, depth, dist, queue)
      invariant Recorded(isTest, found, visited - {root}, later)
      decreases {root} + Known(dependents) - visited, |queue|
    {
      var current, rest := queue[0], queue[1..];
      assert queue == [current] + rest;
      ghost var before := visited;
      ghost var foundBefore := later;
      if current.depth >= depth {
        DequeueKeepsWalking(dependents, isTest, root, depth, dist, current, rest);
        queue := rest;
      } else {
        visited, queue, later, dist := Expand(current, rest, dependents, isTest, root, depth, visited, later, dist);
        VisitedAreKnown(dependents, isTest, root, depth, dist, queue);
        RecordMore(isTest, found, {root}, before, visited, foundBefore, later);
      }
    }
    Exact(dependents, isTest, root, depth, dist);
  }

  lemma StartWalk(dependents: Dependents, isTest: File -> bool, root: File, depth: nat, found: Found)
    requires !isTest(root)
    ensures Underway(dependents, isTest, root, depth, map[root := 0], [Entry(root, 0)])
    ensures Recorded(isTest, found, {root} - {root}, found)
  {
    ReachedZero(dependents, isTest, root, root);
    assert Entry(root, 0) in [Entry(root, 0)];
  }

  lemma VisitedAreKnown(dependents: Dependents, isTest: File -> bool, root: File, depth: nat,
                        dist: map<File, nat>, queue: seq<Entry>)
    requires Walking(dependents, isTest, root, depth, dist, queue)
    ensures dist.Keys <= {root} + Known(dependents)
  {
    forall v | v in dist && v != root
      ensures v in Known(dependents)
    {
      if dist[v] == 0 {
        ReachedZero(dependents, isTest, root, v);
      } else {
        var via := ReachedVia(dependents, isTest, root, v, dist[v] - 1);
        assert via in dependents && v in dependents[via];
      }
    }
  }

  lemma RecordMore(isTest: File -> bool, found: Found, root: set<File>, seen: set<File>, visited: set<File>,
                   middle: Found, later: Found)
    requires root <= seen <= visited
    requires Recorded(isTest, found, seen - root, middle) && Recorded(isTest, middle, visited - seen, later)
    ensures Recorded(isTest, found, visited - root, later)
  {
  }

  lemma Exact(dependents: Dependents, isTest: File -> bool, root: File, depth: nat, dist: map<File, nat>)
    requires Underway(dependents, isTest, root, depth, dist, [])
    ensures forall v :: v in dist <==> Within(dependents, isTest, root, v, depth)
    ensures forall v, n: nat :: v in dist && n < dist[v] ==> !ReachedIn(dependents, isTest, root, v, n)
    ensures forall v :: v in dist ==> ReachedIn(dependents, isTest, root, v, dist[v])
  {
    forall v, n: nat | n <= depth && ReachedIn(dependents, isTest, root, v, n)
      ensures v in dist && dist[v] <= n
    {
      DistancesAreShortest(dependents, isTest, root, depth, dist, v, n);
    }
  }

  /** `codegraph affected`: exactly the files some changed non-test file reaches within `depth`,
      and as affected tests exactly the tests among them and among the changed files. */
  method CmdAffected(files: seq<File>, dependents: Dependents, isTest: File -> bool, depth: nat)
    returns (affectedTests: set<File>, traversed: set<File>, affectedFiles: set<File>)
    ensures forall v :: v in traversed <==> Traversed(dependents, isTest, files, depth, v)
    ensures forall v :: v in affectedTests <==> isTest(v) && (v in traversed || v in files)
    ensures forall v :: v in affectedFiles <==> v in traversed || (v in files && isTest(v))
  {
    assert forall v :: !Traversed(dependents, isTest, files[..0], depth, v);
    hide Traversed, Within;
    var found := Found({}, {});
    for k := 0 to |files|
      invariant forall v :: v in found.traversed <==> Traversed(dependents, isTest, files[..k], depth, v)
      invariant forall v :: v in found.affected <==> isTest(v) && (v in found.traversed || v in files[..k])
    {
      var file := files[k];
      OneMoreRoot(dependents, isTest, files, depth, k);
      if isTest(file) {
        found := found.(affected := found.affected + {file});
      } else {
        var visited;
        ghost var dist;
        visited, found, dist := WalkFrom(file, dependents, isTest, depth, found);
      }
    }
    assert files[..|files|] == files;
    affectedTests, traversed := found.affected, found.traversed;
    affectedFiles := traversed + affectedTests;
  }

  lemma OneMoreRoot(dependents: Dependents, isTest: File -> bool, files: seq<File>, depth: nat, k: nat)
    requires k < |files|
    ensures forall v :: Traversed(dependents, isTest, files[..k + 1], depth, v) <==>
        || Traversed(dependents, isTest, files[..k], depth, v)
        || (!isTest(files[k]) && files[k] != v && Within(dependents, isTest, files[k], v, depth))
    ensures forall v :: v in files[..k + 1] <==> v in files[..k] || v == files[k]
  {
    assert files[..k + 1] == files[..k] + [files[k]];
  }
}
