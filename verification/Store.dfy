/**
 The write side of the graph store, one row at a time: node and file rows are
 upserted in place by key, edges and references whose endpoints are absent are
 dropped, and a repeated edge identity is ignored. Rows are kept in row-id order.
 */
module Store {
  import opened Results
  import opened Sequences

  datatype FileRow = FileRow(path: string, columns: string)
  datatype Node = Node(id: string, name: string, qualifiedName: string, filePath: string, columns: string)
  datatype Edge = Edge(source: string, target: string, kind: string, line: Option<int>, col: Option<int>,
                       columns: string)
  datatype Reference = Reference(fromNode: string, columns: string)

  datatype Graph = Graph(files: seq<FileRow>, nodes: seq<Node>, edges: seq<Edge>, refs: seq<Reference>)

  datatype IndexError = ReadFailed(detail: string) | MissingFields(id: string)

  // ----- Files and nodes: insert, or update in place on a key conflict

  function Upsert<R>(rows: seq<R>, row: R, key: R -> string): seq<R>
  {
    if rows == [] then [row]
    else if key(rows[0]) == key(row) then [row] + rows[1..]
    else [rows[0]] + Upsert(rows[1..], row, key)
  }

  function UpsertAll<R>(rows: seq<R>, added: seq<R>, key: R -> string): seq<R>
    decreases added
  {
    if added == [] then rows else UpsertAll(Upsert(rows, added[0], key), added[1..], key)
  }

  function PathOf(row: FileRow): string
  {
    row.path
  }

  function IdOf(row: Node): string
  {
    row.id
  }

  function UpsertFile(rows: seq<FileRow>, row: FileRow): seq<FileRow>
  {
    Upsert(rows, row, PathOf)
  }

  function UpsertFiles(rows: seq<FileRow>, added: seq<FileRow>): seq<FileRow>
  {
    UpsertAll(rows, added, PathOf)
  }

  function UpsertNodeRows(rows: seq<Node>, added: seq<Node>): seq<Node>
  {
    UpsertAll(rows, added, IdOf)
  }

  predicate Complete(node: Node)
  {
    node.id != "" && node.name != "" && node.filePath != "" && node.qualifiedName != ""
  }

  predicate AllComplete(nodes: seq<Node>)
  {
    forall node :: node in nodes ==> Complete(node)
  }

  function FirstIncomplete(nodes: seq<Node>): Node
    requires !AllComplete(nodes)
  {
    if !Complete(nodes[0]) then nodes[0]
    else assert nodes == [nodes[0]] + nodes[1..]; FirstIncomplete(nodes[1..])
  }

  lemma {:induction false} FirstIncompleteIsFirst(nodes: seq<Node>)
    requires !AllComplete(nodes)
    ensures exists k :: && 0 <= k < |nodes| && nodes[k] == FirstIncomplete(nodes) && !Complete(nodes[k])
                        && forall j :: 0 <= j < k ==> Complete(nodes[j])
  {
    if Complete(nodes[0]) {
      var rest := nodes[1..];
      assert nodes == [nodes[0]] + rest;
      FirstIncompleteIsFirst(rest);
      var k :| && 0 <= k < |rest| && rest[k] == FirstIncomplete(rest) && !Complete(rest[k])
               && forall j :: 0 <= j < k ==> Complete(rest[j]);
      assert nodes[k + 1] == rest[k];
      forall j | 0 <= j < k + 1
        ensures Complete(nodes[j])
      {
        assert j > 0 ==> nodes[j] == rest[j - 1];
      }
    } else {
      assert nodes[0] == FirstIncomplete(nodes);
    }
  }

  /** Complete nodes in front do not change which is the first incomplete one. */
  lemma {:induction false} FirstIncompleteAfter(complete: seq<Node>, nodes: seq<Node>)
    requires AllComplete(complete) && !AllComplete(nodes)
    ensures !AllComplete(complete + nodes) && FirstIncomplete(complete + nodes) == FirstIncomplete(nodes)
    decreases complete
  {
    if complete == [] {
      assert complete + nodes == nodes;
    } else {
      FirstIncompleteAfter(complete[1..], nodes);
      assert (complete + nodes)[1..] == complete[1..] + nodes;
      assert complete[0] in complete;
      var k :| 0 <= k < |nodes| && !Complete(nodes[k]);
      assert (complete + nodes)[|complete| + k] == nodes[k];
    }
  }

  /** One transaction: an incomplete node anywhere in the batch rejects all of it. */
  function UpsertNodes(graph: Graph, batch: seq<Node>): Result<Graph, IndexError>
  {
    if AllComplete(batch) then Ok(graph.(nodes := UpsertNodeRows(graph.nodes, batch)))
    else Err(MissingFields(FirstIncomplete(batch).id))
  }

  // ----- Edges and references: dropped when an endpoint is absent

  predicate HasNode(nodes: seq<Node>, id: string)
  {
    exists node :: node in nodes && node.id == id
  }

  /** The unique index folds a missing line or column to -1. */
  function Identity(edge: Edge): (string, string, string, int, int)
  {
    (edge.source, edge.target, edge.kind,
     if edge.line.Some? then edge.line.value else -1, if edge.col.Some? then edge.col.value else -1)
  }

  function InsertEdge(nodes: seq<Node>, rows: seq<Edge>, edge: Edge): seq<Edge>
  {
    if HasNode(nodes, edge.source) && HasNode(nodes, edge.target)
       && forall k :: 0 <= k < |rows| ==> Identity(rows[k]) != Identity(edge)
    then rows + [edge] else rows
  }

  function InsertEdgeRows(nodes: seq<Node>, rows: seq<Edge>, added: seq<Edge>): seq<Edge>
    decreases added
  {
    if added == [] then rows else InsertEdgeRows(nodes, InsertEdge(nodes, rows, added[0]), added[1..])
  }

  function InsertEdges(graph: Graph, batch: seq<Edge>): Graph
  {
    graph.(edges := InsertEdgeRows(graph.nodes, graph.edges, batch))
  }

  function InsertRefRows(nodes: seq<Node>, rows: seq<Reference>, added: seq<Reference>): seq<Reference>
    decreases added
  {
    if added == [] then rows
    else InsertRefRows(nodes, if HasNode(nodes, added[0].fromNode) then rows + [added[0]] else rows, added[1..])
  }

  function InsertRefs(graph: Graph, batch: seq<Reference>): Graph
  {
    graph.(refs := InsertRefRows(graph.nodes, graph.refs, batch))
  }

  // ----- Inserting in batches is inserting all at once

  lemma {:induction false} UpsertAllSplits<R>(rows: seq<R>, a: seq<R>, b: seq<R>, key: R -> string)
    ensures UpsertAll(rows, a + b, key) == UpsertAll(UpsertAll(rows, a, key), b, key)
    decreases a
  {
    if a == [] {
      assert a + b == b;
    } else {
      assert (a + b)[1..] == a[1..] + b;
      UpsertAllSplits(Upsert(rows, a[0], key), a[1..], b, key);
    }
  }

  lemma {:induction false} InsertEdgeRowsSplits(nodes: seq<Node>, rows: seq<Edge>, a: seq<Edge>, b: seq<Edge>)
    ensures InsertEdgeRows(nodes, rows, a + b) == InsertEdgeRows(nodes, InsertEdgeRows(nodes, rows, a), b)
    decreases a
  {
    if a == [] {
      assert a + b == b;
    } else {
      assert (a + b)[1..] == a[1..] + b;
      InsertEdgeRowsSplits(nodes, InsertEdge(nodes, rows, a[0]), a[1..], b);
    }
  }

  lemma {:induction false} InsertRefRowsSplits(nodes: seq<Node>, rows: seq<Reference>,
                                               a: seq<Reference>, b: seq<Reference>)
    ensures InsertRefRows(nodes, rows, a + b) == InsertRefRows(nodes, InsertRefRows(nodes, rows, a), b)
    decreases a
  {
    if a == [] {
      assert a + b == b;
    } else {
      assert (a + b)[1..] == a[1..] + b;
      InsertRefRowsSplits(nodes, if HasNode(nodes, a[0].fromNode) then rows + [a[0]] else rows, a[1..], b);
    }
  }

  // ----- What is stored then

  lemma {:induction false} UpsertAppends<R>(rows: seq<R>, row: R, key: R -> string)
    requires forall k :: 0 <= k < |rows| ==> key(rows[k]) != key(row)
    ensures Upsert(rows, row, key) == rows + [row]
  {
    if rows != [] {
      UpsertAppends(rows[1..], row, key);
    }
  }

  lemma {:induction false} UpsertReplaces<R>(rows: seq<R>, row: R, key: R -> string, k: nat)
    requires k < |rows| && key(rows[k]) == key(row) && forall j :: 0 <= j < k ==> key(rows[j]) != key(row)
    ensures Upsert(rows, row, key) == rows[k := row]
  {
    if k > 0 {
      UpsertReplaces(rows[1..], row, key, k - 1);
    }
  }

  /** An upsert replaces the first row with the key where it stands, or else appends the row. */
  lemma UpsertPlaces<R>(rows: seq<R>, row: R, key: R -> string)
    ensures (forall k :: 0 <= k < |rows| ==> key(rows[k]) != key(row)) ==> Upsert(rows, row, key) == rows + [row]
    ensures forall k :: 0 <= k < |rows| && key(rows[k]) == key(row)
                        && (forall j :: 0 <= j < k ==> key(rows[j]) != key(row)) ==>
        Upsert(rows, row, key) == rows[k := row]
  {
    hide Upsert;
    if forall k :: 0 <= k < |rows| ==> key(rows[k]) != key(row) {
      UpsertAppends(rows, row, key);
    }
    forall k | 0 <= k < |rows| && key(rows[k]) == key(row) && (forall j :: 0 <= j < k ==> key(rows[j]) != key(row))
      ensures Upsert(rows, row, key) == rows[k := row]
    {
      UpsertReplaces(rows, row, key, k);
    }
  }

  ghost predicate DistinctKeys<R>(rows: seq<R>, key: R -> string)
  {
    forall j, k :: 0 <= j < k < |rows| ==> key(rows[j]) != key(rows[k])
  }

  /** What was stored keeps its place and its key, and changes only if a row was offered under the key. */
  ghost predicate KeepsPlaces<R>(rows: seq<R>, added: seq<R>, key: R -> string, after: seq<R>)
  {
    && |rows| <= |after| && (forall k :: 0 <= k < |rows| ==> key(after[k]) == key(rows[k]))
    && (forall k :: 0 <= k < |rows| && NotOffered(rows[k], added, key) ==> after[k] == rows[k])
  }

  ghost predicate NotOffered<R>(row: R, added: seq<R>, key: R -> string)
  {
    forall k :: 0 <= k < |added| ==> key(added[k]) != key(row)
  }

  /** Of the rows offered under one key the last is stored. */
  ghost predicate LastIsStored<R>(added: seq<R>, key: R -> string, after: seq<R>)
  {
    forall k :: 0 <= k < |added| && NotOffered(added[k], added[k + 1..], key) ==> added[k] in after
  }

  /** `after` is `rows` with the rows of `added` on top, and nothing else. */
  ghost predicate Upserted<R>(rows: seq<R>, added: seq<R>, key: R -> string, after: seq<R>)
  {
    && DistinctKeys(after, key) && KeepsPlaces(rows, added, key, after) && LastIsStored(added, key, after)
    && (forall row :: row in after ==> row in rows || row in added)
  }

  lemma AppendedOne<R>(rows: seq<R>, row: R, key: R -> string)
    requires DistinctKeys(rows, key) && forall k :: 0 <= k < |rows| ==> key(rows[k]) != key(row)
    ensures Upserted(rows, [row], key, rows + [row])
  {
    assert (rows + [row])[|rows|] == row;
  }

  lemma ReplacedOne<R>(rows: seq<R>, row: R, key: R -> string, k: nat)
    requires DistinctKeys(rows, key) && k < |rows| && key(rows[k]) == key(row)
    ensures Upserted(rows, [row], key, rows[k := row])
  {
    var after := rows[k := row];
    assert after[k] == row;
    assert KeepsPlaces(rows, [row], key, after) by {
      assert [row][0] == row;
    }
  }

  lemma UpsertedOne<R>(rows: seq<R>, row: R, key: R -> string)
    requires DistinctKeys(rows, key)
    ensures Upserted(rows, [row], key, Upsert(rows, row, key))
  {
    UpsertPlaces(rows, row, key);
    hide Upserted, Upsert;
    if k :| 0 <= k < |rows| && key(rows[k]) == key(row) {
      assert forall j :: 0 <= j < k ==> key(rows[j]) != key(row);
      ReplacedOne(rows, row, key, k);
    } else {
      AppendedOne(rows, row, key);
    }
  }

  lemma PlacesKeptThen<R>(rows: seq<R>, row: R, rest: seq<R>, key: R -> string, next: seq<R>, after: seq<R>)
    requires KeepsPlaces(rows, [row], key, next) && KeepsPlaces(next, rest, key, after)
    ensures KeepsPlaces(rows, [row] + rest, key, after)
  {
    var added := [row] + rest;
    forall k | 0 <= k < |rows| && NotOffered(rows[k], added, key)
      ensures after[k] == rows[k]
    {
      assert key(added[0]) != key(rows[k]);
      forall j | 0 <= j < |rest|
        ensures key(rest[j]) != key(rows[k])
      {
        assert key(added[j + 1]) != key(rows[k]);
      }
      assert next[k] == rows[k];
    }
  }

  lemma LastStoredThen<R>(row: R, rest: seq<R>, key: R -> string, next: seq<R>, after: seq<R>)
    requires row in next && KeepsPlaces(next, rest, key, after) && LastIsStored(rest, key, after)
    ensures LastIsStored([row] + rest, key, after)
  {
    var added := [row] + rest;
    assert added[1..] == rest;
    forall k | 0 <= k < |added| && NotOffered(added[k], added[k + 1..], key)
      ensures added[k] in after
    {
      if k == 0 {
        var i :| 0 <= i < |next| && next[i] == row;
        assert after[i] == row;
      } else {
        assert rest[k - 1] == added[k] && rest[k..] == added[k + 1..];
      }
    }
  }

  lemma UpsertedThen<R>(rows: seq<R>, row: R, rest: seq<R>, key: R -> string, next: seq<R>, after: seq<R>)
    requires Upserted(rows, [row], key, next) && Upserted(next, rest, key, after)
    ensures Upserted(rows, [row] + rest, key, after)
  {
    assert [row][0] == row && [row][1..] == [] && NotOffered(row, [], key);
    hide KeepsPlaces, DistinctKeys;
    assert row in next;
    LastStoredThen(row, rest, key, next, after);
    PlacesKeptThen(rows, row, rest, key, next, after);
  }

  /** Rows with distinct keys stay so, and of the rows offered under one key the last is the one stored. */
  lemma {:induction false} UpsertedRows<R>(rows: seq<R>, added: seq<R>, key: R -> string)
    requires DistinctKeys(rows, key)
    ensures Upserted(rows, added, key, UpsertAll(rows, added, key))
    decreases added
  {
    if added != [] {
      hide Upserted;
      var next := Upsert(rows, added[0], key);
      UpsertedOne(rows, added[0], key);
      StaysDistinct(rows, [added[0]], key, next);
      UpsertedRows(next, added[1..], key);
      UpsertedThen(rows, added[0], added[1..], key, next, UpsertAll(next, added[1..], key));
      assert [added[0]] + added[1..] == added;
    }
  }

  lemma StaysDistinct<R>(rows: seq<R>, added: seq<R>, key: R -> string, after: seq<R>)
    requires Upserted(rows, added, key, after)
    ensures DistinctKeys(after, key)
  {
  }

  /** Whatever the keys: an upsert keeps every key and adds only those offered. */
  lemma {:induction false} UpsertedKeys<R>(rows: seq<R>, added: seq<R>, key: R -> string, k: string)
    ensures (exists row :: row in UpsertAll(rows, added, key) && key(row) == k)
            <==> (exists row :: row in rows && key(row) == k) || (exists row :: row in added && key(row) == k)
    decreases added
  {
    if added != [] {
      var next := Upsert(rows, added[0], key);
      UpsertedKeys(next, added[1..], key, k);
      UpsertKeys(rows, added[0], key, k);
      assert forall row :: row in added <==> row == added[0] || row in added[1..];
    }
  }

  lemma {:induction false} UpsertKeys<R>(rows: seq<R>, row: R, key: R -> string, k: string)
    ensures (exists r :: r in Upsert(rows, row, key) && key(r) == k)
            <==> key(row) == k || exists r :: r in rows && key(r) == k
  {
    var after := Upsert(rows, row, key);
    if rows == [] {
      assert after[0] == row;
    } else {
      assert forall r :: r in rows <==> r == rows[0] || r in rows[1..];
      if key(rows[0]) == key(row) {
        assert forall r :: r in after <==> r == row || r in rows[1..];
      } else {
        UpsertKeys(rows[1..], row, key, k);
        assert forall r :: r in after <==> r == rows[0] || r in Upsert(rows[1..], row, key);
      }
    }
  }

  predicate SamePlace(a: Option<int>, b: Option<int>)
  {
    a == b || (a == None && b == Some(-1)) || (a == Some(-1) && b == None)
  }

  /** What the unique index takes for one edge: a missing line or column is as good as -1. */
  predicate SameEdge(a: Edge, b: Edge)
  {
    && a.source == b.source && a.target == b.target && a.kind == b.kind
    && SamePlace(a.line, b.line) && SamePlace(a.col, b.col)
  }

  lemma IdentityIsSameEdge(a: Edge, b: Edge)
    ensures Identity(a) == Identity(b) <==> SameEdge(a, b)
  {
  }

  /** Both ends of the edge are ids of stored nodes. */
  ghost predicate EndsAreThere(nodes: seq<Node>, edge: Edge)
  {
    && (exists node :: node in nodes && node.id == edge.source)
    && (exists node :: node in nodes && node.id == edge.target)
  }

  /** The reference starts from a stored node. */
  ghost predicate StartIsThere(nodes: seq<Node>, ref: Reference)
  {
    exists node :: node in nodes && node.id == ref.fromNode
  }

  ghost predicate DistinctEdges(rows: seq<Edge>)
  {
    forall j, k :: 0 <= j < k < |rows| ==> !SameEdge(rows[j], rows[k])
  }

  /** `edge` is not the same as any of `rows`. */
  ghost predicate NewEdge(rows: seq<Edge>, edge: Edge)
  {
    forall k :: 0 <= k < |rows| ==> !SameEdge(rows[k], edge)
  }

  lemma InsertedEdge(nodes: seq<Node>, rows: seq<Edge>, edge: Edge)
    ensures InsertEdge(nodes, rows, edge)
            == if EndsAreThere(nodes, edge) && NewEdge(rows, edge) then rows + [edge] else rows
  {
    forall e
      ensures Identity(e) == Identity(edge) <==> SameEdge(e, edge)
    {
      IdentityIsSameEdge(e, edge);
    }
  }

  lemma {:induction false} EdgesKeepOrder(nodes: seq<Node>, rows: seq<Edge>, added: seq<Edge>)
    ensures rows <= InsertEdgeRows(nodes, rows, added)
    ensures Subsequence(InsertEdgeRows(nodes, rows, added)[|rows|..], added)
    ensures DistinctEdges(rows) ==> DistinctEdges(InsertEdgeRows(nodes, rows, added))
    decreases added
  {
    if added != [] {
      hide InsertEdge, EndsAreThere, SameEdge;
      var next := InsertEdge(nodes, rows, added[0]);
      InsertedEdge(nodes, rows, added[0]);
      EdgesKeepOrder(nodes, next, added[1..]);
      var after := InsertEdgeRows(nodes, next, added[1..]);
      if next == rows {
        assert after[|rows|..] == after[|next|..];
      } else {
        assert after[|rows|] == next[|rows|] == added[0];
        assert after[|rows|..] == [added[0]] + after[|next|..];
      }
    }
  }

  lemma {:induction false} EdgesHaveEnds(nodes: seq<Node>, rows: seq<Edge>, added: seq<Edge>)
    ensures forall e :: e in InsertEdgeRows(nodes, rows, added) ==> e in rows || EndsAreThere(nodes, e)
    decreases added
  {
    if added != [] {
      hide InsertEdge, EndsAreThere, NewEdge;
      InsertedEdge(nodes, rows, added[0]);
      EdgesHaveEnds(nodes, InsertEdge(nodes, rows, added[0]), added[1..]);
    }
  }

  lemma {:induction false} FirstIsStored(nodes: seq<Node>, rows: seq<Edge>, added: seq<Edge>, k: nat)
    requires k < |added| && EndsAreThere(nodes, added[k]) && NewEdge(rows + added[..k], added[k])
    ensures added[k] in InsertEdgeRows(nodes, rows, added)
    decreases added
  {
    hide InsertEdge, EndsAreThere, NewEdge;
    var next := InsertEdge(nodes, rows, added[0]);
    InsertedEdge(nodes, rows, added[0]);
    FirstOfKind(nodes, rows, added, k, next);
    if k == 0 {
      EdgesKeepOrder(nodes, next, added[1..]);
    } else {
      FirstIsStored(nodes, next, added[1..], k - 1);
    }
  }

  /** Every offered edge with both its ends there is stored, or one that is the same. */
  lemma {:induction false} EveryEdgeIsStored(nodes: seq<Node>, rows: seq<Edge>, added: seq<Edge>, edge: Edge)
    requires edge in added && EndsAreThere(nodes, edge)
    ensures exists stored :: stored in InsertEdgeRows(nodes, rows, added) && SameEdge(stored, edge)
    decreases added
  {
    hide InsertEdge, EndsAreThere;
    var next := InsertEdge(nodes, rows, added[0]);
    InsertedEdge(nodes, rows, added[0]);
    EdgesKeepOrder(nodes, next, added[1..]);
    if edge == added[0] {
      if NewEdge(rows, edge) {
        assert next[|rows|] == edge && SameEdge(edge, edge);
      } else {
        var k :| 0 <= k < |rows| && SameEdge(rows[k], edge);
        assert next[k] == rows[k];
      }
    } else {
      EveryEdgeIsStored(nodes, next, added[1..], edge);
    }
  }

  /** Stored edges stay in front. Of those offered some follow, in order: each with both its ends there and no two
      edges the same; and the first of those that are the same is among them. */
  lemma InsertedEdges(nodes: seq<Node>, rows: seq<Edge>, added: seq<Edge>)
    ensures var after := InsertEdgeRows(nodes, rows, added);
            && rows <= after && Subsequence(after[|rows|..], added)
            && (DistinctEdges(rows) ==> DistinctEdges(after))
            && (forall e :: e in after ==> e in rows || EndsAreThere(nodes, e))
            && (forall k :: 0 <= k < |added| && EndsAreThere(nodes, added[k]) && NewEdge(rows + added[..k], added[k])
                  ==> added[k] in after)
  {
    hide InsertEdgeRows, EndsAreThere, NewEdge, DistinctEdges;
    EdgesKeepOrder(nodes, rows, added);
    EdgesHaveEnds(nodes, rows, added);
    forall k | 0 <= k < |added| && EndsAreThere(nodes, added[k]) && NewEdge(rows + added[..k], added[k])
      ensures added[k] in InsertEdgeRows(nodes, rows, added)
    {
      FirstIsStored(nodes, rows, added, k);
    }
  }

  lemma FirstOfKind(nodes: seq<Node>, rows: seq<Edge>, added: seq<Edge>, k: nat, next: seq<Edge>)
    requires k < |added| && EndsAreThere(nodes, added[k]) && NewEdge(rows + added[..k], added[k])
    requires next == if EndsAreThere(nodes, added[0]) && NewEdge(rows, added[0]) then rows + [added[0]] else rows
    ensures if k == 0 then added[0] in next else NewEdge(next + added[1..][..k - 1], added[1..][k - 1])
  {
    hide EndsAreThere, SameEdge;
    if k == 0 {
      assert rows + added[..0] == rows;
    } else {
      var seen, later := rows + added[..k], next + added[1..][..k - 1];
      assert added[1..][..k - 1] == added[1..k] && added[..k] == [added[0]] + added[1..k];
      forall i | 0 <= i < |later|
        ensures !SameEdge(later[i], added[k])
      {
        assert later[i] in next || later[i] in added[1..k];
        assert later[i] in seen;
      }
    }
  }

  lemma {:induction false} RefsKeepOrder(nodes: seq<Node>, rows: seq<Reference>, added: seq<Reference>)
    ensures rows <= InsertRefRows(nodes, rows, added)
    ensures Subsequence(InsertRefRows(nodes, rows, added)[|rows|..], added)
    decreases added
  {
    if added != [] {
      hide HasNode;
      var next := if HasNode(nodes, added[0].fromNode) then rows + [added[0]] else rows;
      RefsKeepOrder(nodes, next, added[1..]);
      var after := InsertRefRows(nodes, next, added[1..]);
      if next == rows {
        assert after[|rows|..] == after[|next|..];
      } else {
        assert after[|rows|] == next[|rows|] == added[0];
        assert after[|rows|..] == [added[0]] + after[|next|..];
      }
    }
  }

  lemma {:induction false} RefsKeepCount(nodes: seq<Node>, rows: seq<Reference>, added: seq<Reference>, ref: Reference)
    ensures multiset(InsertRefRows(nodes, rows, added))[ref]
            == multiset(rows)[ref] + if HasNode(nodes, ref.fromNode) then multiset(added)[ref] else 0
    decreases added
  {
    if added != [] {
      hide HasNode;
      var next := if HasNode(nodes, added[0].fromNode) then rows + [added[0]] else rows;
      RefsKeepCount(nodes, next, added[1..], ref);
      assert added == [added[0]] + added[1..];
    }
  }

  /** Stored references stay in front; those offered follow in order, each as often as it was offered if it starts
      from a stored node, and otherwise not at all. */
  lemma InsertedRefs(nodes: seq<Node>, rows: seq<Reference>, added: seq<Reference>)
    ensures var after := InsertRefRows(nodes, rows, added);
            && rows <= after && Subsequence(after[|rows|..], added)
            && (forall ref: Reference :: multiset(after)[ref]
                  == multiset(rows)[ref] + (if StartIsThere(nodes, ref) then multiset(added)[ref] else 0))
  {
    hide InsertRefRows;
    RefsKeepOrder(nodes, rows, added);
    forall ref: Reference
      ensures multiset(InsertRefRows(nodes, rows, added))[ref]
              == multiset(rows)[ref] + if HasNode(nodes, ref.fromNode) then multiset(added)[ref] else 0
    {
      RefsKeepCount(nodes, rows, added, ref);
    }
  }
}
