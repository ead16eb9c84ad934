/**
 The indexer's persist pipeline: nodes flush in capped batches while files are
 consumed in order, edges and references spill and replay in capped batches
 after every node is stored. The all-at-once insert it has to equal is defined
 first; composed with the ordered window the equality holds for every order in
 which workers finish.
 */
module Streaming {
  import opened Results
  import opened Sequences
  import opened Store
  import opened OrderedWindow

  /** What one source file contributes; a file that is not source contributes nothing. */
  datatype Extracted = Extracted(file: FileRow, nodes: seq<Node>, edges: seq<Edge>, refs: seq<Reference>)

  type Parse = nat -> Result<Option<Extracted>, IndexError>

  // ----- All at once

  /** The source files among indices 0..count, in index order. */
  function Sources(parse: Parse, count: nat): seq<Extracted>
  {
    if count == 0 then []
    else
      Sources(parse, count - 1)
      + match parse(count - 1)
        case Ok(Some(extracted)) => [extracted]
        case _ => []
  }

  function FileRows(sources: seq<Extracted>): seq<FileRow>
  {
    if sources == [] then [] else FileRows(sources[..|sources| - 1]) + [sources[|sources| - 1].file]
  }

  function AllNodes(sources: seq<Extracted>): seq<Node>
  {
    if sources == [] then [] else AllNodes(sources[..|sources| - 1]) + sources[|sources| - 1].nodes
  }

  function AllEdges(sources: seq<Extracted>): seq<Edge>
  {
    if sources == [] then [] else AllEdges(sources[..|sources| - 1]) + sources[|sources| - 1].edges
  }

  function AllRefs(sources: seq<Extracted>): seq<Reference>
  {
    if sources == [] then [] else AllRefs(sources[..|sources| - 1]) + sources[|sources| - 1].refs
  }

  predicate AllParse(parse: Parse, count: nat)
  {
    forall i: nat :: i < count ==> parse(i).Ok?
  }

  /** Every file parses and every node is complete: the inputs the all-at-once insert accepts. */
  predicate Accepted(parse: Parse, count: nat)
  {
    AllParse(parse, count) && AllComplete(AllNodes(Sources(parse, count)))
  }

  /** One insert per table: files, then all nodes, then all edges, then all references. */
  function AllAtOnce(graph: Graph, sources: seq<Extracted>): Graph
  {
    var files := graph.(files := UpsertFiles(graph.files, FileRows(sources)));
    var nodes := files.(nodes := UpsertNodeRows(files.nodes, AllNodes(sources)));
    InsertRefs(InsertEdges(nodes, AllEdges(sources)), AllRefs(sources))
  }

  // ----- What that store holds, file by file

  /** File `i` is a source file and contributes `e`. */
  ghost predicate Contributes(parse: Parse, count: nat, i: nat, e: Extracted)
  {
    i < count && parse(i) == Ok(Some(e))
  }

  lemma {:induction false} SourcesAreContributions(parse: Parse, count: nat, e: Extracted)
    ensures e in Sources(parse, count) <==> exists i: nat :: Contributes(parse, count, i, e)
  {
    if count > 0 {
      var before := count - 1;
      SourcesAreContributions(parse, before, e);
      if i: nat :| Contributes(parse, before, i, e) {
        assert Contributes(parse, count, i, e);
      }
      if i: nat :| Contributes(parse, count, i, e) {
        assert i < before ==> Contributes(parse, before, i, e);
      }
      if parse(before) == Ok(Some(e)) {
        assert Contributes(parse, count, before, e);
      }
    }
  }

  lemma {:induction false} AllAreOffered(sources: seq<Extracted>)
    ensures forall row :: row in FileRows(sources) <==> exists e :: e in sources && row == e.file
    ensures forall node :: node in AllNodes(sources) <==> exists e :: e in sources && node in e.nodes
    ensures forall edge :: edge in AllEdges(sources) <==> exists e :: e in sources && edge in e.edges
    ensures forall ref :: ref in AllRefs(sources) <==> exists e :: e in sources && ref in e.refs
  {
    if sources != [] {
      AllAreOffered(sources[..|sources| - 1]);
      assert sources == sources[..|sources| - 1] + [sources[|sources| - 1]];
    }
  }

  /** What the all-at-once insert accepts: files that all parse, with no node that lacks its id, name, file path or
      qualified name. */
  lemma AcceptedMeans(parse: Parse, count: nat)
    ensures Accepted(parse, count) <==>
        forall i: nat :: i < count ==> parse(i).Ok? && (parse(i).value.Some? ==> NodesNamed(parse(i).value.value.nodes))
  {
    hide Sources, AllNodes;
    var sources := Sources(parse, count);
    AllAreOffered(sources);
    if Accepted(parse, count) {
      forall i: nat | i < count && parse(i).value.Some?
        ensures NodesNamed(parse(i).value.value.nodes)
      {
        var e := parse(i).value.value;
        assert Contributes(parse, count, i, e);
        SourcesAreContributions(parse, count, e);
        assert forall node :: node in e.nodes ==> node in AllNodes(sources);
      }
    }
    forall node | node in AllNodes(sources) && !Complete(node)
      ensures exists i: nat :: i < count && parse(i).Ok? && parse(i).value.Some?
                               && !NodesNamed(parse(i).value.value.nodes)
    {
      var e :| e in sources && node in e.nodes;
      SourcesAreContributions(parse, count, e);
      var i: nat :| Contributes(parse, count, i, e);
    }
  }

  predicate NodesNamed(nodes: seq<Node>)
  {
    forall node :: node in nodes ==>
        && node.id != "" && node.name != "" && node.filePath != "" && node.qualifiedName != ""
  }

  /** Edges and references are inserted over the nodes as they are after all of them, and change no other table. */
  lemma OneByOne(start: Graph, sources: seq<Extracted>)
    ensures var graph := AllAtOnce(start, sources);
            && graph.files == UpsertAll(start.files, FileRows(sources), PathOf)
            && graph.nodes == UpsertAll(start.nodes, AllNodes(sources), IdOf)
            && graph.edges == InsertEdgeRows(graph.nodes, start.edges, AllEdges(sources))
            && graph.refs == InsertRefRows(graph.nodes, start.refs, AllRefs(sources))
  {
  }

  /** Stored under a path is what was there or what some file offers. */
  lemma PathsStored(parse: Parse, count: nat, start: Graph, path: string)
    ensures (exists row :: row in AllAtOnce(start, Sources(parse, count)).files && row.path == path) <==>
        || (exists row :: row in start.files && row.path == path)
        || exists i: nat, e :: Contributes(parse, count, i, e) && e.file.path == path
  {
    hide Sources, FileRows, AllNodes, AllEdges, AllRefs, Contributes, AllAtOnce, UpsertAll;
    var sources := Sources(parse, count);
    OneByOne(start, sources);
    AllAreOffered(sources);
    UpsertedKeys(start.files, FileRows(sources), PathOf, path);
    forall e
      ensures e in sources <==> exists i: nat :: Contributes(parse, count, i, e)
    {
      SourcesAreContributions(parse, count, e);
    }
    assert (exists row :: row in FileRows(sources) && row.path == path) <==>
        exists e :: e in sources && e.file.path == path;
  }

  /** Stored under an id is what was there or what some file offers. */
  lemma IdsStored(parse: Parse, count: nat, start: Graph, id: string)
    ensures (exists node :: node in AllAtOnce(start, Sources(parse, count)).nodes && node.id == id) <==>
        || (exists node :: node in start.nodes && node.id == id)
        || exists i: nat, e, node :: Contributes(parse, count, i, e) && node in e.nodes && node.id == id
  {
    hide Sources, FileRows, AllNodes, AllEdges, AllRefs, Contributes, AllAtOnce, UpsertAll;
    var sources := Sources(parse, count);
    OneByOne(start, sources);
    AllAreOffered(sources);
    UpsertedKeys(start.nodes, AllNodes(sources), IdOf, id);
    forall e
      ensures e in sources <==> exists i: nat :: Contributes(parse, count, i, e)
    {
      SourcesAreContributions(parse, count, e);
    }
    assert (exists node :: node in AllNodes(sources) && node.id == id) <==>
        exists e, node :: e in sources && node in e.nodes && node.id == id;
  }

  lemma MoreSources(parse: Parse, count: nat)
    requires count > 0
    ensures parse(count - 1).Ok? && parse(count - 1).value.Some? ==>
        Sources(parse, count) == Sources(parse, count - 1) + [parse(count - 1).value.value]
    ensures parse(count - 1).Err? || parse(count - 1).value.None? ==> Sources(parse, count) == Sources(parse, count - 1)
  {
  }

  /** A file later than `i` contributes `e`. */
  ghost predicate ContributedLater(parse: Parse, count: nat, i: nat, e: Extracted)
  {
    exists j: nat :: i < j && Contributes(parse, count, j, e)
  }

  /** Where the contribution of file `i` stands: after it come only those of later files. */
  lemma {:induction false} SourceAt(parse: Parse, count: nat, i: nat, e: Extracted) returns (n: nat)
    requires Contributes(parse, count, i, e)
    ensures n < |Sources(parse, count)| && Sources(parse, count)[n] == e
    ensures forall m :: n < m < |Sources(parse, count)| ==>
        ContributedLater(parse, count, i, Sources(parse, count)[m])
  {
    var before := count - 1;
    var all, sources := Sources(parse, count), Sources(parse, before);
    MoreSources(parse, count);
    hide Sources;
    if i == before {
      n := |sources|;
    } else {
      n := SourceAt(parse, before, i, e);
      forall m | n < m < |all|
        ensures ContributedLater(parse, count, i, all[m])
      {
        if m < |sources| {
          assert ContributedLater(parse, before, i, sources[m]);
          var j: nat :| i < j && Contributes(parse, before, j, sources[m]);
          assert Contributes(parse, count, j, all[m]);
        } else {
          assert Contributes(parse, count, before, all[m]);
        }
      }
    }
  }

  lemma {:induction false} FileRowAt(sources: seq<Extracted>)
    ensures |FileRows(sources)| == |sources|
    ensures forall k :: 0 <= k < |sources| ==> FileRows(sources)[k] == sources[k].file
  {
    if sources != [] {
      FileRowAt(sources[..|sources| - 1]);
    }
  }

  /** The nodes before those of source `n`, those of it, and those after. */
  lemma {:induction false} NodesAround(sources: seq<Extracted>, n: nat) returns (before: seq<Node>, after: seq<Node>)
    requires n < |sources|
    ensures AllNodes(sources) == before + sources[n].nodes + after
    ensures forall node :: node in after ==> exists m :: n < m < |sources| && node in sources[m].nodes
  {
    var last := |sources| - 1;
    if n == last {
      before, after := AllNodes(sources[..last]), [];
    } else {
      var rest;
      before, rest := NodesAround(sources[..last], n);
      after := rest + sources[last].nodes;
      forall node | node in after
        ensures exists m :: n < m < |sources| && node in sources[m].nodes
      {
        if node in rest {
          var m :| n < m < last && node in sources[..last][m].nodes;
          assert node in sources[m].nodes;
        }
      }
    }
  }

  /** Of the files that offer one path the last is the one stored. */
  lemma LastFileIsStored(parse: Parse, count: nat, start: Graph, i: nat, e: Extracted)
    requires DistinctKeys(start.files, PathOf) && Contributes(parse, count, i, e)
    requires forall j: nat, d :: i < j && Contributes(parse, count, j, d) ==> d.file.path != e.file.path
    ensures e.file in AllAtOnce(start, Sources(parse, count)).files
  {
    hide Sources, FileRows, AllAtOnce, UpsertAll, KeepsPlaces, DistinctKeys;
    var sources := Sources(parse, count);
    OneByOne(start, sources);
    UpsertedRows(start.files, FileRows(sources), PathOf);
    FileRowAt(sources);
    var n := SourceAt(parse, count, i, e);
    var rows := FileRows(sources);
    var later := rows[n + 1..];
    forall m | 0 <= m < |later|
      ensures PathOf(later[m]) != PathOf(rows[n])
    {
      assert later[m] == sources[n + 1 + m].file;
    }
  }

  /** Of the nodes that are offered under one id, file by file and within a file, the last is the one stored. */
  lemma LastNodeIsStored(parse: Parse, count: nat, start: Graph, i: nat, e: Extracted, k: nat)
    requires DistinctKeys(start.nodes, IdOf) && Contributes(parse, count, i, e) && k < |e.nodes|
    requires forall l :: k < l < |e.nodes| ==> e.nodes[l].id != e.nodes[k].id
    requires forall j: nat, d, node :: i < j && Contributes(parse, count, j, d) && node in d.nodes ==>
        node.id != e.nodes[k].id
    ensures e.nodes[k] in AllAtOnce(start, Sources(parse, count)).nodes
  {
    hide Sources, AllNodes, AllAtOnce, UpsertAll, KeepsPlaces, DistinctKeys;
    var sources := Sources(parse, count);
    OneByOne(start, sources);
    UpsertedRows(start.nodes, AllNodes(sources), IdOf);
    var n := SourceAt(parse, count, i, e);
    var before, after := NodesAround(sources, n);
    NoneLater(before, e.nodes, after, k, AllNodes(sources));
  }

  lemma NoneLater(before: seq<Node>, own: seq<Node>, after: seq<Node>, k: nat, nodes: seq<Node>)
    requires k < |own| && nodes == before + own + after
    requires forall l :: k < l < |own| ==> own[l].id != own[k].id
    requires forall node :: node in after ==> node.id != own[k].id
    ensures nodes[|before| + k] == own[k] && NotOffered(own[k], nodes[|before| + k + 1..], IdOf)
  {
    assert nodes[|before| + k + 1..] == own[k + 1..] + after;
  }

  ghost predicate EdgeOffered(parse: Parse, count: nat, edge: Edge)
  {
    exists i: nat, e :: Contributes(parse, count, i, e) && edge in e.edges
  }

  ghost predicate RefOffered(parse: Parse, count: nat, ref: Reference)
  {
    exists i: nat, e :: Contributes(parse, count, i, e) && ref in e.refs
  }

  lemma OfferedRows(parse: Parse, count: nat)
    ensures forall edge :: edge in AllEdges(Sources(parse, count)) <==> EdgeOffered(parse, count, edge)
    ensures forall ref :: ref in AllRefs(Sources(parse, count)) <==> RefOffered(parse, count, ref)
  {
    hide Sources, Contributes, AllEdges, AllRefs;
    AllAreOffered(Sources(parse, count));
    forall e
      ensures e in Sources(parse, count) <==> exists i: nat :: Contributes(parse, count, i, e)
    {
      SourcesAreContributions(parse, count, e);
    }
  }

  /** Stored are the edges that were, and of those the files offer, in file order, the first of any that are the
      same, if both its ends are stored nodes. */
  lemma EdgesStored(parse: Parse, count: nat, start: Graph)
    ensures var graph := AllAtOnce(start, Sources(parse, count));
            && start.edges <= graph.edges && (DistinctEdges(start.edges) ==> DistinctEdges(graph.edges))
            && Subsequence(graph.edges[|start.edges|..], AllEdges(Sources(parse, count)))
            && (forall edge :: edge in graph.edges ==>
                  edge in start.edges || (EdgeOffered(parse, count, edge) && EndsAreThere(graph.nodes, edge)))
            && (forall edge :: EdgeOffered(parse, count, edge) && EndsAreThere(graph.nodes, edge) ==>
                  exists stored :: stored in graph.edges && SameEdge(stored, edge))
  {
    hide Sources, AllEdges, AllAtOnce, InsertEdgeRows, EndsAreThere, EdgeOffered, SameEdge, DistinctEdges;
    var sources := Sources(parse, count);
    var graph := AllAtOnce(start, sources);
    OneByOne(start, sources);
    OfferedRows(parse, count);
    InsertedEdges(graph.nodes, start.edges, AllEdges(sources));
    forall edge | edge in AllEdges(sources) && EndsAreThere(graph.nodes, edge)
      ensures exists stored :: stored in graph.edges && SameEdge(stored, edge)
    {
      EveryEdgeIsStored(graph.nodes, start.edges, AllEdges(sources), edge);
    }
    OrOffered(start.edges, graph.edges, AllEdges(sources));
  }

  /** What is stored was stored or offered. */
  lemma OrOffered<T>(before: seq<T>, after: seq<T>, added: seq<T>)
    requires before <= after && Subsequence(after[|before|..], added)
    ensures forall row :: row in after ==> row in before || row in added
  {
    SubsequenceIsPart(after[|before|..], added);
    assert after == before + after[|before|..];
  }

  lemma {:induction false} SubsequenceIsPart<T>(s: seq<T>, t: seq<T>)
    requires Subsequence(s, t)
    ensures forall x :: x in s ==> x in t
    decreases |t|
  {
    if s != [] {
      if s[0] == t[0] && Subsequence(s[1..], t[1..]) {
        SubsequenceIsPart(s[1..], t[1..]);
        assert s == [s[0]] + s[1..];
      } else {
        SubsequenceIsPart(s, t[1..]);
      }
    }
  }

  /** Stored are the references that were, and of those the files offer, in file order and as often as offered, the
      ones that start from a stored node. */
  lemma RefsStored(parse: Parse, count: nat, start: Graph)
    ensures var graph := AllAtOnce(start, Sources(parse, count));
            && start.refs <= graph.refs
            && Subsequence(graph.refs[|start.refs|..], AllRefs(Sources(parse, count)))
            && (forall ref: Reference :: multiset(graph.refs)[ref] == multiset(start.refs)[ref]
                      + (if StartIsThere(graph.nodes, ref) then multiset(AllRefs(Sources(parse, count)))[ref] else 0))
            && (forall ref: Reference :: ref in graph.refs <==>
                  ref in start.refs || (RefOffered(parse, count, ref) && StartIsThere(graph.nodes, ref)))
  {
    hide Sources, AllRefs, AllAtOnce, InsertRefRows, RefOffered;
    var sources := Sources(parse, count);
    var graph := AllAtOnce(start, sources);
    OneByOne(start, sources);
    OfferedRows(parse, count);
    InsertedRefs(graph.nodes, start.refs, AllRefs(sources));
    forall ref: Reference
      ensures ref in graph.refs <==>
          ref in start.refs || (RefOffered(parse, count, ref) && StartIsThere(graph.nodes, ref))
    {
      assert ref in graph.refs <==> ref in multiset(graph.refs);
      assert ref in start.refs <==> ref in multiset(start.refs);
      assert ref in AllRefs(sources) <==> ref in multiset(AllRefs(sources));
    }
  }

  // ----- Streaming

  datatype Batch = NodeBatch(nodes: seq<Node>) | EdgeBatch(edges: seq<Edge>) | RefBatch(refs: seq<Reference>)

  /** What the consumer closure captures: the store, the pending nodes and the two spill
      files; with the node batches already handed to the store. */
  datatype Pass = Pass(graph: Graph, pendingNodes: seq<Node>, spilledEdges: seq<Edge>, spilledRefs: seq<Reference>,
                       flushed: seq<seq<Node>>)

  /** The consumer closure. */
  function PersistFile(flushRows: nat, pass: Pass, payload: Option<Extracted>): (Pass, Option<IndexError>)
  {
    match payload
    case None => (pass, None)
    case Some(e) =>
      var stored := pass.(graph := pass.graph.(files := UpsertFile(pass.graph.files, e.file)),
                          pendingNodes := pass.pendingNodes + e.nodes);
      if |stored.pendingNodes| >= flushRows then
        match UpsertNodes(stored.graph, stored.pendingNodes)
        case Err(error) => (stored, Some(error))
        case Ok(graph) =>
          var flushed := stored.flushed + [stored.pendingNodes];
          (Spill(stored.(graph := graph, pendingNodes := [], flushed := flushed), e), None)
      else
        (Spill(stored, e), None)
  }

  function Spill(pass: Pass, e: Extracted): Pass
  {
    pass.(spilledEdges := pass.spilledEdges + e.edges, spilledRefs := pass.spilledRefs + e.refs)
  }

  function Persist(flushRows: nat): (Pass, nat, Option<Extracted>) -> (Pass, Option<IndexError>)
  {
    (pass, _, payload) => PersistFile(flushRows, pass, payload)
  }

  /** Consecutive pieces of exactly `rows` rows, the last one possibly shorter. */
  function Chunks<T>(all: seq<T>, rows: nat): seq<seq<T>>
    requires rows > 0
  {
    if all == [] then [] else if |all| <= rows then [all] else [all[..rows]] + Chunks(all[rows..], rows)
  }

  lemma {:induction false} ChunksAreFull<T>(all: seq<T>, rows: nat)
    requires rows > 0
    ensures Flatten(Chunks(all, rows)) == all
    ensures forall k :: 0 <= k < |Chunks(all, rows)| ==>
        && Chunks(all, rows)[k] != []
        && |Chunks(all, rows)[k]| <= rows
        && (k < |Chunks(all, rows)| - 1 ==> |Chunks(all, rows)[k]| == rows)
    decreases |all|
  {
    if |all| > rows {
      ChunksAreFull(all[rows..], rows);
    } else if all != [] {
      assert Flatten([all]) == all + Flatten([]);
    }
  }

  function EdgeBatches(pieces: seq<seq<Edge>>): (batches: seq<Batch>)
    ensures |batches| == |pieces| && forall k :: 0 <= k < |pieces| ==> batches[k] == EdgeBatch(pieces[k])
  {
    seq(|pieces|, k requires 0 <= k < |pieces| => EdgeBatch(pieces[k]))
  }

  function RefBatches(pieces: seq<seq<Reference>>): (batches: seq<Batch>)
    ensures |batches| == |pieces| && forall k :: 0 <= k < |pieces| ==> batches[k] == RefBatch(pieces[k])
  {
    seq(|pieces|, k requires 0 <= k < |pieces| => RefBatch(pieces[k]))
  }

  function NodeBatches(pieces: seq<seq<Node>>): (batches: seq<Batch>)
    ensures |batches| == |pieces| && forall k :: 0 <= k < |pieces| ==> batches[k] == NodeBatch(pieces[k])
  {
    seq(|pieces|, k requires 0 <= k < |pieces| => NodeBatch(pieces[k]))
  }

  lemma ChunksHead<T>(all: seq<T>, rows: nat)
    requires 0 < rows <= |all|
    ensures Chunks(all, rows) == [all[..rows]] + Chunks(all[rows..], rows)
  {
    if |all| == rows {
      assert all[..rows] == all;
    }
  }

  lemma {:induction false} FlattenOneMore<T>(pieces: seq<seq<T>>, last: seq<T>)
    ensures Flatten(pieces + [last]) == Flatten(pieces) + last
  {
    if pieces == [] {
      assert Flatten([last]) == last + Flatten([]);
    } else {
      assert (pieces + [last])[1..] == pieces[1..] + [last];
      FlattenOneMore(pieces[1..], last);
    }
  }

  /** The store after each piece in turn went through `flush`. */
  function Flushed<G, T>(flush: (G, seq<T>) -> G, graph: G, pieces: seq<seq<T>>): G
    decreases pieces
  {
    if pieces == [] then graph else Flushed(flush, flush(graph, pieces[0]), pieces[1..])
  }

  lemma {:induction false} FlushedOneMore<G, T>(flush: (G, seq<T>) -> G, graph: G, pieces: seq<seq<T>>, last: seq<T>)
    ensures Flushed(flush, graph, pieces + [last]) == flush(Flushed(flush, graph, pieces), last)
    decreases pieces
  {
    if pieces != [] {
      assert (pieces + [last])[1..] == pieces[1..] + [last];
      FlushedOneMore(flush, flush(graph, pieces[0]), pieces[1..], last);
    }
  }

  /** Read the spilled rows back in order and flush them in batches of `batchRows`. */
  method Replay<G, T>(graph: G, spilled: seq<T>, batchRows: nat, flush: (G, seq<T>) -> G)
    returns (after: G, pieces: seq<seq<T>>)
    requires batchRows > 0
    ensures pieces == Chunks(spilled, batchRows)
    ensures after == Flushed(flush, graph, pieces)
  {
    after, pieces := graph, [];
    var batch: seq<T> := [];
    assert after == Flushed(flush, graph, []);
    hide Flushed, Chunks;
    assert batch + spilled[0..] == spilled;
    for line := 0 to |spilled|
      invariant |batch| < batchRows && after == Flushed(flush, graph, pieces)
      invariant pieces + Chunks(batch + spilled[line..], batchRows) == Chunks(spilled, batchRows)
    {
      TakeLine(batch, spilled, line);
      batch := batch + [spilled[line]];
      if |batch| >= batchRows {
        BatchDone(pieces, batch, spilled[line + 1..], batchRows);
        FlushedOneMore(flush, graph, pieces, batch);
        after := flush(after, batch);
        pieces := pieces + [batch];
        batch := [];
      }
    }
    assert batch + spilled[|spilled|..] == batch;
    LastBatch(batch, batchRows);
    if batch != [] {
      FlushedOneMore(flush, graph, pieces, batch);
      after := flush(after, batch);
      pieces := pieces + [batch];
    }
  }

  lemma BatchDone<T>(pieces: seq<seq<T>>, batch: seq<T>, rest: seq<T>, rows: nat)
    requires |batch| == rows > 0
    ensures pieces + Chunks(batch + rest, rows) == (pieces + [batch]) + Chunks([] + rest, rows)
  {
    ChunksHead(batch + rest, rows);
    assert (batch + rest)[..rows] == batch && (batch + rest)[rows..] == rest == [] + rest;
  }

  lemma TakeLine<T>(batch: seq<T>, spilled: seq<T>, line: nat)
    requires line < |spilled|
    ensures batch + spilled[line..] == (batch + [spilled[line]]) + spilled[line + 1..]
  {
  }

  lemma LastBatch<T>(batch: seq<T>, rows: nat)
    requires |batch| < rows
    ensures Chunks(batch, rows) == if batch == [] then [] else [batch]
  {
  }

  lemma {:induction false} EdgesInBatches(graph: Graph, pieces: seq<seq<Edge>>)
    ensures Flushed(InsertEdges, graph, pieces) == InsertEdges(graph, Flatten(pieces))
    decreases pieces
  {
    if pieces != [] {
      EdgesInBatches(InsertEdges(graph, pieces[0]), pieces[1..]);
      InsertEdgeRowsSplits(graph.nodes, graph.edges, pieces[0], Flatten(pieces[1..]));
    }
  }

  lemma {:induction false} RefsInBatches(graph: Graph, pieces: seq<seq<Reference>>)
    ensures Flushed(InsertRefs, graph, pieces) == InsertRefs(graph, Flatten(pieces))
    decreases pieces
  {
    if pieces != [] {
      RefsInBatches(InsertRefs(graph, pieces[0]), pieces[1..]);
      InsertRefRowsSplits(graph.nodes, graph.refs, pieces[0], Flatten(pieces[1..]));
    }
  }

  // ----- The node pass

  /** After consuming the files in `sources`: the store is what the flushed node batches
      made of it, and batches and pending rows together are exactly the nodes in order. */
  ghost predicate NodePass(flushRows: nat, start: Graph, sources: seq<Extracted>, pass: Pass)
  {
    && Flatten(pass.flushed) + pass.pendingNodes == AllNodes(sources)
    && |pass.pendingNodes| < flushRows
    && (forall k :: 0 <= k < |pass.flushed| ==> |pass.flushed[k]| >= flushRows)
    && AllComplete(Flatten(pass.flushed))
    && pass.graph == start.(files := UpsertFiles(start.files, FileRows(sources)),
                            nodes := UpsertNodeRows(start.nodes, Flatten(pass.flushed)))
    && pass.spilledEdges == AllEdges(sources) && pass.spilledRefs == AllRefs(sources)
  }

  lemma OneMoreSource(sources: seq<Extracted>, e: Extracted)
    ensures FileRows(sources + [e]) == FileRows(sources) + [e.file]
    ensures AllNodes(sources + [e]) == AllNodes(sources) + e.nodes
    ensures AllEdges(sources + [e]) == AllEdges(sources) + e.edges
    ensures AllRefs(sources + [e]) == AllRefs(sources) + e.refs
  {
    assert (sources + [e])[..|sources|] == sources;
  }

  lemma CompleteParts(a: seq<Node>, b: seq<Node>)
    ensures AllComplete(a + b) <==> AllComplete(a) && AllComplete(b)
  {
  }

  /** Flushing `pending` after `flushed` leaves nothing pending and everything accounted for. */
  lemma FlushAccounts(start: seq<Node>, flushed: seq<seq<Node>>, pending: seq<Node>)
    ensures Flatten(flushed + [pending]) == Flatten(flushed) + pending
    ensures UpsertNodeRows(start, Flatten(flushed + [pending]))
            == UpsertNodeRows(UpsertNodeRows(start, Flatten(flushed)), pending)
    ensures AllComplete(Flatten(flushed + [pending])) <==> AllComplete(Flatten(flushed)) && AllComplete(pending)
  {
    FlattenOneMore(flushed, pending);
    UpsertAllSplits(start, Flatten(flushed), pending, IdOf);
    CompleteParts(Flatten(flushed), pending);
  }

  /** The file's rows are queued: its nodes stay pending. */
  lemma NodesQueued(flushRows: nat, start: Graph, sources: seq<Extracted>, pass: Pass, e: Extracted, after: Pass)
    requires NodePass(flushRows, start, sources, pass)
    requires |pass.pendingNodes + e.nodes| < flushRows
    requires after == Pass(pass.graph.(files := UpsertFile(pass.graph.files, e.file)), pass.pendingNodes + e.nodes,
                           pass.spilledEdges + e.edges, pass.spilledRefs + e.refs, pass.flushed)
    ensures NodePass(flushRows, start, sources + [e], after)
  {
    OneMoreSource(sources, e);
    UpsertAllSplits(start.files, FileRows(sources), [e.file], PathOf);
    assert Flatten(pass.flushed) + after.pendingNodes == AllNodes(sources + [e]);
  }

  /** The file's rows fill the batch: everything pending is flushed. */
  lemma NodesFlushed(flushRows: nat, start: Graph, sources: seq<Extracted>, pass: Pass, e: Extracted, after: Pass)
    requires flushRows > 0 && NodePass(flushRows, start, sources, pass)
    requires |pass.pendingNodes + e.nodes| >= flushRows && AllComplete(pass.pendingNodes + e.nodes)
    requires after == Pass(pass.graph.(files := UpsertFile(pass.graph.files, e.file),
                                       nodes := UpsertNodeRows(pass.graph.nodes, pass.pendingNodes + e.nodes)), [],
                           pass.spilledEdges + e.edges, pass.spilledRefs + e.refs,
                           pass.flushed + [pass.pendingNodes + e.nodes])
    ensures NodePass(flushRows, start, sources + [e], after)
  {
    OneMoreSource(sources, e);
    UpsertAllSplits(start.files, FileRows(sources), [e.file], PathOf);
    hide Flatten, AllNodes, AllEdges, AllRefs, FileRows, UpsertNodeRows, AllComplete;
    FlushAccounts(start.nodes, pass.flushed, pass.pendingNodes + e.nodes);
    assert Flatten(after.flushed) + [] == AllNodes(sources + [e]);
  }

  /** One more source file keeps the invariant, or fails because a node of the files so far is incomplete. */
  lemma NodePassStep(flushRows: nat, start: Graph, sources: seq<Extracted>, pass: Pass, e: Extracted)
    requires flushRows > 0 && NodePass(flushRows, start, sources, pass)
    ensures var (after, failure) := PersistFile(flushRows, pass, Some(e));
            if failure.None? then NodePass(flushRows, start, sources + [e], after)
            else !AllComplete(AllNodes(sources + [e]))
  {
    var pending := pass.pendingNodes + e.nodes;
    var after := PersistFile(flushRows, pass, Some(e)).0;
    if |pending| < flushRows {
      NodesQueued(flushRows, start, sources, pass, e, after);
    } else if AllComplete(pending) {
      NodesFlushed(flushRows, start, sources, pass, e, after);
    } else {
      OneMoreSource(sources, e);
      CompleteParts(Flatten(pass.flushed), pending);
      assert Flatten(pass.flushed) + pending == AllNodes(sources + [e]);
    }
  }

  lemma OneMoreFile(parse: Parse, k: nat)
    requires k > 0
    ensures AllParse(parse, k) <==> AllParse(parse, k - 1) && parse(k - 1).Ok?
    ensures parse(k - 1).Ok? && parse(k - 1).value.Some? ==>
        Sources(parse, k) == Sources(parse, k - 1) + [parse(k - 1).value.value]
    ensures parse(k - 1).Ok? && parse(k - 1).value.None? ==> Sources(parse, k) == Sources(parse, k - 1)
    ensures Accepted(parse, k) ==> Accepted(parse, k - 1)
  {
    var sources := Sources(parse, k - 1);
    if parse(k - 1).Ok? && parse(k - 1).value.Some? {
      assert (sources + [parse(k - 1).value.value])[..|sources|] == sources;
      assert AllNodes(Sources(parse, k)) == AllNodes(sources) + parse(k - 1).value.value.nodes;
    }
  }

  lemma NothingPersisted(flushRows: nat, pass: Pass)
    ensures PersistFile(flushRows, pass, None) == (pass, None)
  {
  }

  lemma StateAfterFile(flushRows: nat, start: Pass, parse: Parse, k: nat)
    requires k > 0
    ensures var before := StateBefore(k - 1, parse, Persist(flushRows), start);
            StateBefore(k, parse, Persist(flushRows), start)
            == if before.None? || parse(k - 1).Err? then None
               else
                 var (after, failure) := PersistFile(flushRows, before.value, parse(k - 1).value);
                 if failure.Some? then None else Some(after)
  {
    hide PersistFile;
  }

  /** Where the sequential loop stands before index `k`. */
  lemma {:induction false} NodePassAt(flushRows: nat, start: Graph, parse: Parse, k: nat)
    requires flushRows > 0
    ensures var before := StateBefore(k, parse, Persist(flushRows), Pass(start, [], [], [], []));
            if before.Some? then AllParse(parse, k) && NodePass(flushRows, start, Sources(parse, k), before.value)
            else !Accepted(parse, k)
  {
    if k == 0 {
      hide *;
      NothingPassed(flushRows, start, parse);
    } else {
      hide *;
      NodePassAt(flushRows, start, parse, k - 1);
      OneMoreFile(parse, k);
      StateAfterFile(flushRows, Pass(start, [], [], [], []), parse, k);
      var before := StateBefore(k - 1, parse, Persist(flushRows), Pass(start, [], [], [], []));
      if before.Some? {
        NodePassNext(flushRows, start, parse, k, before.value);
        if parse(k - 1).Ok? {
          var (after, failure) := PersistFile(flushRows, before.value, parse(k - 1).value);
          assert failure.None? ==> NodePass(flushRows, start, Sources(parse, k), after);
        }
      }
    }
  }

  lemma NothingPassed(flushRows: nat, start: Graph, parse: Parse)
    requires flushRows > 0
    ensures var pass := Pass(start, [], [], [], []);
            && StateBefore(0, parse, Persist(flushRows), pass) == Some(pass)
            && AllParse(parse, 0) && NodePass(flushRows, start, Sources(parse, 0), pass)
  {
    hide PersistFile;
    assert NodePass(flushRows, start, [], Pass(start, [], [], [], []));
  }

  lemma NodePassNext(flushRows: nat, start: Graph, parse: Parse, k: nat, before: Pass)
    requires flushRows > 0 && k > 0
    requires AllParse(parse, k - 1) && NodePass(flushRows, start, Sources(parse, k - 1), before)
    ensures if parse(k - 1).Err? then !Accepted(parse, k)
            else
              var (after, failure) := PersistFile(flushRows, before, parse(k - 1).value);
              if failure.None? then AllParse(parse, k) && NodePass(flushRows, start, Sources(parse, k), after)
              else !Accepted(parse, k)
  {
    hide NodePass, PersistFile, AllComplete, AllNodes, Sources, AllParse;
    OneMoreFile(parse, k);
    match parse(k - 1) {
      case Ok(Some(e)) => NodePassStep(flushRows, start, Sources(parse, k - 1), before, e);
      case Ok(None) => NothingPersisted(flushRows, before);
      case Err(_) =>
    }
  }

  // ----- The whole index run

  datatype Indexed = Indexed(graph: Graph, nodeBatches: seq<seq<Node>>, edgeBatches: seq<seq<Edge>>,
                             refBatches: seq<seq<Reference>>)

  /** The store holds the file rows of `sources` and, of their nodes, exactly the flushed batches. */
  ghost predicate Leaves(sources: seq<Extracted>, start: Graph, nodeRows: nat, graph: Graph, log: seq<Batch>,
                         batches: seq<seq<Node>>)
  {
    && log == NodeBatches(batches) && (forall k :: 0 <= k < |batches| ==> |batches[k]| >= nodeRows)
    && Flatten(batches) <= AllNodes(sources) && AllComplete(Flatten(batches))
    && graph == start.(files := UpsertFiles(start.files, FileRows(sources)),
                       nodes := UpsertNodeRows(start.nodes, Flatten(batches)))
  }

  /** A run that failed after taking `n` files. Either file `n` cannot be parsed, and fewer nodes than a flush are
      left unwritten; or the nodes left over fill a flush, or are the last ones, and the first incomplete node of
      all files taken is among them and is named. */
  ghost predicate Stopped(n: nat, count: nat, parse: Parse, start: Graph, nodeRows: nat, graph: Graph,
                          log: seq<Batch>, error: IndexError)
  {
    var nodes := AllNodes(Sources(parse, n));
    && n <= count && AllParse(parse, n)
    && exists batches: seq<seq<Node>> ::
         && Leaves(Sources(parse, n), start, nodeRows, graph, log, batches)
         && (|| (n < count && parse(n) == Err(error) && |nodes| - |Flatten(batches)| < nodeRows)
             || (&& (n == count || |nodes| - |Flatten(batches)| >= nodeRows)
                 && !AllComplete(nodes) && error == MissingFields(FirstIncomplete(nodes).id)))
  }

  /** A failing flush names the first incomplete node of all files taken. */
  lemma PendingFails(sources: seq<Extracted>, flushed: seq<seq<Node>>, pending: seq<Node>)
    requires Flatten(flushed) + pending == AllNodes(sources) && AllComplete(Flatten(flushed)) && !AllComplete(pending)
    ensures !AllComplete(AllNodes(sources))
    ensures FirstIncomplete(AllNodes(sources)) == FirstIncomplete(pending)
  {
    FirstIncompleteAfter(Flatten(flushed), pending);
  }

  /** Where the consumer stands when the window reports its error. */
  lemma StoppedInPass(count: nat, parse: Parse, start: Graph, nodeRows: nat, pass: Pass, error: IndexError)
    requires nodeRows > 0
    requires Sequential(count, 0, parse, Persist(nodeRows), Pass(start, [], [], [], [])) == (pass, Err(error))
    ensures exists n: nat :: Stopped(n, count, parse, start, nodeRows, pass.graph, NodeBatches(pass.flushed), error)
  {
    var initial := Pass(start, [], [], [], []);
    SequentialErrorIsTheFirstFailure(count, parse, Persist(nodeRows), initial);
    var k: nat :| k < count && FirstFailure(k, error, parse, Persist(nodeRows), initial);
    SequentialStopsAt(count, 0, k, error, parse, Persist(nodeRows), initial);
    NodePassAt(nodeRows, start, parse, k);
    var before := StateBefore(k, parse, Persist(nodeRows), initial).value;
    hide NodePass, Stopped, Sequential, StateBefore, Sources, PersistFile;
    if parse(k).Err? {
      UnparsedStops(count, parse, start, nodeRows, before, k, error);
    } else {
      assert PersistFile(nodeRows, before, parse(k).value) == (pass, Some(error));
      IncompleteStops(count, parse, start, nodeRows, before, pass, k, error);
    }
  }

  lemma UnparsedStops(count: nat, parse: Parse, start: Graph, nodeRows: nat, before: Pass, k: nat, error: IndexError)
    requires k < count && parse(k) == Err(error) && AllParse(parse, k)
    requires NodePass(nodeRows, start, Sources(parse, k), before)
    ensures Stopped(k, count, parse, start, nodeRows, before.graph, NodeBatches(before.flushed), error)
  {
    hide Sources, AllNodes, FileRows, AllComplete, UpsertNodeRows, UpsertFiles;
    assert Leaves(Sources(parse, k), start, nodeRows, before.graph, NodeBatches(before.flushed), before.flushed);
  }

  lemma IncompleteStops(count: nat, parse: Parse, start: Graph, nodeRows: nat, before: Pass, pass: Pass, k: nat,
                        error: IndexError)
    requires k < count && parse(k).Ok? && AllParse(parse, k)
    requires NodePass(nodeRows, start, Sources(parse, k), before)
    requires PersistFile(nodeRows, before, parse(k).value) == (pass, Some(error))
    ensures Stopped(k + 1, count, parse, start, nodeRows, pass.graph, NodeBatches(pass.flushed), error)
  {
    hide AllNodes, FileRows, AllComplete, UpsertNodeRows, UpsertFiles, FirstIncomplete, Flatten, Sources;
    var e := parse(k).value.value;
    var sources, pending := Sources(parse, k), before.pendingNodes + e.nodes;
    OneMoreFile(parse, k + 1);
    OneMoreSource(sources, e);
    UpsertFilesOne(start.files, FileRows(sources), e.file);
    assert Flatten(before.flushed) + pending == AllNodes(sources + [e]);
    PendingFails(sources + [e], before.flushed, pending);
    assert Leaves(Sources(parse, k + 1), start, nodeRows, pass.graph, NodeBatches(pass.flushed), before.flushed);
  }

  lemma UpsertFilesOne(rows: seq<FileRow>, added: seq<FileRow>, row: FileRow)
    ensures UpsertFiles(rows, added + [row]) == UpsertFile(UpsertFiles(rows, added), row)
  {
    UpsertAllSplits(rows, added, [row], PathOf);
  }

  /** For every order in which the workers finish: indexing succeeds exactly when the
      all-at-once insert accepts the project, and then leaves the same store, having written
      every node before any edge and every edge before any reference. A failed run has written no edge and no
      reference, and of the nodes whole batches of at least the flush size. */
  method IndexProject(count: nat, window: nat, parse: Parse, start: Graph,
                      nodeRows: nat, edgeRows: nat, refRows: nat)
    returns (graph: Graph, result: Result<(), RunError<IndexError>>, log: seq<Batch>)
    requires window > 0 && nodeRows > 0 && edgeRows > 0 && refRows > 0
    ensures result.Ok? <==> Accepted(parse, count)
    ensures result.Ok? ==> graph == AllAtOnce(start, Sources(parse, count))
    ensures result.Ok? ==> InPhases(log, Sources(parse, count), nodeRows, edgeRows, refRows)
    ensures result.Err? ==> graph.edges == start.edges && graph.refs == start.refs
    ensures result.Err? ==> result.error.Task? && exists n: nat ::
                Stopped(n, count, parse, start, nodeRows, graph, log, result.error.error)
  {
    ghost var sources := Sources(parse, count);
    var initial := Pass(start, [], [], [], []);
    var pass;
    ghost var trace;
    pass, result, trace := RunOrderedParallelWindow(count, window, parse, Persist(nodeRows), initial);
    graph, log := pass.graph, NodeBatches(pass.flushed);
    SequentialErrorIsTheFirstFailure(count, parse, Persist(nodeRows), initial);
    NodePassAt(nodeRows, start, parse, count);
    if result.Err? {
      StoppedInPass(count, parse, start, nodeRows, pass, result.error.error);
      return;
    }
    ghost var batches;
    graph, result, log, batches := FlushPending(nodeRows, pass, start, sources);
    if result.Err? {
      PendingFails(sources, pass.flushed, pass.pendingNodes);
      assert Leaves(sources, start, nodeRows, graph, log, pass.flushed);
      assert Stopped(count, count, parse, start, nodeRows, graph, log, result.error.error);
      return;
    }
    var edgePieces, refPieces;
    graph, edgePieces, refPieces := ReplaySpill(graph, pass.spilledEdges, pass.spilledRefs, edgeRows, refRows);
    log := log + EdgeBatches(edgePieces) + RefBatches(refPieces);
  }

  /** Write the nodes still pending after the last file. */
  method FlushPending(nodeRows: nat, pass: Pass, ghost start: Graph, ghost sources: seq<Extracted>)
    returns (graph: Graph, result: Result<(), RunError<IndexError>>, log: seq<Batch>, ghost batches: seq<seq<Node>>)
    requires nodeRows > 0 && NodePass(nodeRows, start, sources, pass)
    ensures result.Ok? <==> AllComplete(AllNodes(sources))
    ensures result.Ok? ==>
        && graph == start.(files := UpsertFiles(start.files, FileRows(sources)),
                           nodes := UpsertNodeRows(start.nodes, AllNodes(sources)))
        && log == NodeBatches(batches) && Flatten(batches) == AllNodes(sources)
        && (forall k :: 0 <= k < |batches| ==> batches[k] != [])
        && (forall k :: 0 <= k < |batches| - 1 ==> |batches[k]| >= nodeRows)
    ensures result.Err? ==>
        && graph == pass.graph && log == NodeBatches(pass.flushed) && !AllComplete(pass.pendingNodes)
        && result.error == Task(MissingFields(FirstIncomplete(pass.pendingNodes).id))
  {
    graph, log, batches, result := pass.graph, NodeBatches(pass.flushed), pass.flushed, Ok(());
    FlushAccounts(start.nodes, pass.flushed, pass.pendingNodes);
    if pass.pendingNodes != [] {
      var upserted := UpsertNodes(graph, pass.pendingNodes);
      if upserted.Err? {
        return graph, Err(Task(upserted.error)), log, batches;
      }
      graph := upserted.value;
      log := log + [NodeBatch(pass.pendingNodes)];
      batches := batches + [pass.pendingNodes];
    }
  }

  /** Replay the spilled edges, then the spilled references. */
  method ReplaySpill(graph: Graph, edges: seq<Edge>, refs: seq<Reference>, edgeRows: nat, refRows: nat)
    returns (after: Graph, edgePieces: seq<seq<Edge>>, refPieces: seq<seq<Reference>>)
    requires edgeRows > 0 && refRows > 0
    ensures after == InsertRefs(InsertEdges(graph, edges), refs)
    ensures edgePieces == Chunks(edges, edgeRows) && refPieces == Chunks(refs, refRows)
  {
    var withEdges;
    withEdges, edgePieces := Replay(graph, edges, edgeRows, InsertEdges);
    EdgesInBatches(graph, edgePieces);
    ChunksAreFull(edges, edgeRows);
    after, refPieces := Replay(withEdges, refs, refRows, InsertRefs);
    RefsInBatches(withEdges, refPieces);
    ChunksAreFull(refs, refRows);
  }

  /** All node batches, then all edge batches, then all reference batches; no batch is empty,
      replay batches are full except possibly the last, node batches reach the flush size
      except possibly the last, and each table's batches are its rows in file order. */
  ghost predicate InPhases(log: seq<Batch>, sources: seq<Extracted>, nodeRows: nat, edgeRows: nat, refRows: nat)
    requires edgeRows > 0 && refRows > 0
  {
    exists batches: seq<seq<Node>> ::
      && log == NodeBatches(batches) + EdgeBatches(Chunks(AllEdges(sources), edgeRows))
                + RefBatches(Chunks(AllRefs(sources), refRows))
      && Flatten(batches) == AllNodes(sources)
      && (forall k :: 0 <= k < |batches| ==> batches[k] != [])
      && (forall k :: 0 <= k < |batches| - 1 ==> |batches[k]| >= nodeRows)
  }

  lemma {:induction false} SpillTouchesNoEdges(flushRows: nat, count: nat, next: nat, parse: Parse, pass: Pass)
    requires next <= count
    ensures var after := Sequential(count, next, parse, Persist(flushRows), pass).0.graph;
            after.edges == pass.graph.edges && after.refs == pass.graph.refs
    decreases count - next
  {
    if next < count && parse(next).Ok? {
      var (after, failure) := PersistFile(flushRows, pass, parse(next).value);
      if failure.None? {
        SpillTouchesNoEdges(flushRows, count, next + 1, parse, after);
      }
    }
  }
}
