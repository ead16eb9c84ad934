/**
 Canonical graphs as the graph diff sees them: rows of columns on four surfaces,
 a schema text, and the group a changed row is reported under.
 */
module GraphRows {
  import opened Results
  import opened Sorting

  /** A column value; `Other` carries the JSON text of a number, a boolean or an array, `Object` its own too. */
  datatype Value = Null | Str(text: string) | Object(fields: map<string, Value>, shown: string) | Other(shown: string)

  type Row = map<string, Value>

  datatype Surface = Nodes | Edges | UnresolvedRefs | Files

  const ALL: seq<Surface> := [Nodes, Edges, UnresolvedRefs, Files]

  datatype Graph = Graph(nodes: seq<Row>, edges: seq<Row>, unresolvedRefs: seq<Row>, files: seq<Row>, schema: string)

  function Rows(surface: Surface, graph: Graph): seq<Row>
  {
    match surface
    case Nodes => graph.nodes
    case Edges => graph.edges
    case UnresolvedRefs => graph.unresolvedRefs
    case Files => graph.files
  }

  /** The rows that occur in two graphs, on any surface. */
  function AllRows(left: Graph, right: Graph): set<Row>
  {
    set row | row in RowsOf(left) + RowsOf(right)
  }

  function RowsOf(graph: Graph): seq<Row>
  {
    graph.nodes + graph.edges + graph.unresolvedRefs + graph.files
  }

  lemma RowsAreAmong(left: Graph, right: Graph, surface: Surface)
    ensures forall row :: row in Rows(surface, left) || row in Rows(surface, right) ==> row in AllRows(left, right)
  {
  }

  lemma AllRowsEitherWay(left: Graph, right: Graph)
    ensures AllRows(left, right) == AllRows(right, left)
  {
  }

  /** Distinct ones of these rows have distinct compact JSON texts. */
  ghost predicate Injective(json: Row -> string, rows: set<Row>)
  {
    forall a, b :: a in rows && b in rows && json(a) == json(b) ==> a == b
  }

  /** Two graphs that differ and share a row, kept apart by their ids. */
  lemma SomeGraphsAreKeptApart() returns (json: Row -> string, left: Graph, right: Graph)
    ensures Injective(json, AllRows(left, right))
    ensures json(map["id" := Str("a")]) == "{\"id\":\"a\"}" && json(map["id" := Str("b")]) == "{\"id\":\"b\"}"
    ensures left.nodes == [map["id" := Str("a")]] && right.nodes == left.nodes + [map["id" := Str("b")]]
  {
    json := (row: Row) => "{\"id\":\"" + Column(row, "id") + "\"}";
    var first: Row, second: Row := map["id" := Str("a")], map["id" := Str("b")];
    assert json(first)[7] == 'a' && json(second)[7] == 'b';
    left, right := Graph([first], [], [], [], ""), Graph([first, second], [], [], [], "");
    hide Column;
    OnlyThese(left, right, first, second);
  }

  lemma OnlyThese(left: Graph, right: Graph, first: Row, second: Row)
    requires left == Graph([first], [], [], [], "") && right == Graph([first, second], [], [], [], "")
    ensures forall row :: row in AllRows(left, right) ==> row == first || row == second
  {
  }

  function Texts(json: Row -> string, rows: seq<Row>): seq<string>
  {
    if rows == [] then [] else Texts(json, rows[..|rows| - 1]) + [json(rows[|rows| - 1])]
  }

  lemma {:induction false} TextAt(json: Row -> string, rows: seq<Row>)
    ensures |Texts(json, rows)| == |rows| && forall k :: 0 <= k < |rows| ==> Texts(json, rows)[k] == json(rows[k])
  {
    if rows != [] {
      TextAt(json, rows[..|rows| - 1]);
    }
  }

  lemma {:induction false} TextsAreRows(json: Row -> string, rows: seq<Row>)
    ensures |Texts(json, rows)| == |rows| && forall k :: 0 <= k < |rows| ==> Texts(json, rows)[k] == json(rows[k])
    ensures forall t :: t in Texts(json, rows) <==> exists row :: row in rows && json(row) == t
  {
    if rows != [] {
      TextsAreRows(json, rows[..|rows| - 1]);
      assert rows == rows[..|rows| - 1] + [rows[|rows| - 1]];
    }
  }

  // ----- Group keys

  datatype GroupKey = GroupKey(surface: Surface, language: string, kind: string, resolvedBy: string)

  const NONE := "-"
  const UNKNOWN_LANGUAGE := "?"

  function StrOf(row: Row, name: string): Option<string>
  {
    if name in row && row[name].Str? then Some(row[name].text) else None
  }

  function Column(row: Row, name: string): string
  {
    if name !in row then NONE
    else
      match row[name]
      case Null => NONE
      case Str(text) => text
      case Object(_, shown) => shown
      case Other(shown) => shown
  }

  function EdgeResolution(row: Row): string
  {
    if "metadata" !in row || !row["metadata"].Object? then NONE
    else
      var fields := row["metadata"].fields;
      if "resolvedBy" in fields && fields["resolvedBy"].Str? then fields["resolvedBy"].text
      else if "synthesizedBy" in fields && fields["synthesizedBy"].Str?
      then "synthesizedBy:" + fields["synthesizedBy"].text
      else NONE
  }

  /** Node languages by id; of several nodes with one id the last counts. */
  function NodeLanguages(nodes: seq<Row>): map<string, string>
  {
    if nodes == [] then map[]
    else
      var before := NodeLanguages(nodes[..|nodes| - 1]);
      var node := nodes[|nodes| - 1];
      if StrOf(node, "id").Some? && StrOf(node, "language").Some?
      then before[StrOf(node, "id").value := StrOf(node, "language").value]
      else before
  }

  /** The language of an edge's source node: in its own graph, failing that in the other one, failing that unknown. */
  function EdgeLanguage(row: Row, own: map<string, string>, other: map<string, string>): string
  {
    var source := match StrOf(row, "source") case Some(text) => text case None => "";
    if source in own then own[source] else if source in other then other[source] else UNKNOWN_LANGUAGE
  }

  function KeyOf(surface: Surface, row: Row, own: map<string, string>, other: map<string, string>): GroupKey
  {
    match surface
    case Nodes => GroupKey(surface, Column(row, "language"), Column(row, "kind"), NONE)
    case Edges => GroupKey(surface, EdgeLanguage(row, own, other), Column(row, "kind"), EdgeResolution(row))
    case UnresolvedRefs => GroupKey(surface, Column(row, "language"), Column(row, "reference_kind"), NONE)
    case Files => GroupKey(surface, Column(row, "language"), "file", NONE)
  }

  // ----- What a key shows

  /** What a column is shown as: its text; `-` if it is missing or null; any other value as its JSON text. */
  ghost predicate Shows(row: Row, name: string, shown: string)
  {
    || (name in row && row[name] == Str(shown))
    || ((name !in row || row[name] == Null) && shown == "-")
    || (name in row && (row[name].Object? || row[name].Other?) && row[name].shown == shown)
  }

  /** What is shown as an edge's resolver: the one in its metadata, failing that its synthesizer, failing that `-`. */
  ghost predicate ShowsResolver(row: Row, shown: string)
  {
    if HasText(row, "resolvedBy") then shown == row["metadata"].fields["resolvedBy"].text
    else if HasText(row, "synthesizedBy")
    then shown == "synthesizedBy:" + row["metadata"].fields["synthesizedBy"].text
    else shown == "-"
  }

  predicate HasText(row: Row, name: string)
  {
    && "metadata" in row && row["metadata"].Object?
    && name in row["metadata"].fields && row["metadata"].fields[name].Str?
  }

  /** A node with that id that says its language. */
  predicate HasLanguage(node: Row, id: string)
  {
    "id" in node && node["id"] == Str(id) && "language" in node && node["language"].Str?
  }

  /** The last of the nodes with that id says this language. */
  ghost predicate LastSays(nodes: seq<Row>, id: string, language: string)
  {
    exists k :: && 0 <= k < |nodes| && HasLanguage(nodes[k], id) && nodes[k]["language"] == Str(language)
                && forall j :: k < j < |nodes| ==> !HasLanguage(nodes[j], id)
  }

  ghost predicate NoneSays(nodes: seq<Row>, id: string)
  {
    forall k :: 0 <= k < |nodes| ==> !HasLanguage(nodes[k], id)
  }

  /** What is shown as an edge's language: that of its source on its own side, failing that on the other, failing
      that `?`. An edge without a source looks for the empty id. */
  ghost predicate ShowsSourceLanguage(row: Row, own: seq<Row>, other: seq<Row>, shown: string)
  {
    var source := if "source" in row && row["source"].Str? then row["source"].text else "";
    || LastSays(own, source, shown)
    || (NoneSays(own, source) && LastSays(other, source, shown))
    || (NoneSays(own, source) && NoneSays(other, source) && shown == "?")
  }

  /** The row of `from` is to be reported under `key`. */
  ghost predicate BelongsUnder(key: GroupKey, row: Row, from: Graph, other: Graph)
  {
    match key.surface
    case Nodes =>
      && row in from.nodes
      && Shows(row, "language", key.language) && Shows(row, "kind", key.kind) && key.resolvedBy == "-"
    case Edges =>
      && row in from.edges && ShowsSourceLanguage(row, from.nodes, other.nodes, key.language)
      && Shows(row, "kind", key.kind) && ShowsResolver(row, key.resolvedBy)
    case UnresolvedRefs =>
      && row in from.unresolvedRefs
      && Shows(row, "language", key.language) && Shows(row, "reference_kind", key.kind) && key.resolvedBy == "-"
    case Files =>
      && row in from.files
      && Shows(row, "language", key.language) && key.kind == "file" && key.resolvedBy == "-"
  }

  lemma ColumnShows(row: Row, name: string, shown: string)
    ensures Shows(row, name, shown) <==> Column(row, name) == shown
  {
  }

  lemma ResolutionShows(row: Row, shown: string)
    ensures ShowsResolver(row, shown) <==> EdgeResolution(row) == shown
  {
  }

  lemma OneMoreNode(before: seq<Row>, node: Row, id: string, language: string)
    ensures NoneSays(before + [node], id) <==> NoneSays(before, id) && !HasLanguage(node, id)
    ensures LastSays(before + [node], id, language) <==>
        if HasLanguage(node, id) then node["language"] == Str(language) else LastSays(before, id, language)
  {
    var nodes, last := before + [node], |before|;
    assert nodes[last] == node && forall k :: 0 <= k < last ==> nodes[k] == before[k];
    if LastSays(before, id, language) && !HasLanguage(node, id) {
      var k :| && 0 <= k < last && HasLanguage(before[k], id) && before[k]["language"] == Str(language)
               && forall j :: k < j < last ==> !HasLanguage(before[j], id);
      assert HasLanguage(nodes[k], id);
    }
  }

  lemma {:induction false} LanguagesSay(nodes: seq<Row>, id: string, language: string)
    ensures NoneSays(nodes, id) <==> id !in NodeLanguages(nodes)
    ensures LastSays(nodes, id, language) <==> id in NodeLanguages(nodes) && NodeLanguages(nodes)[id] == language
  {
    if nodes != [] {
      hide LastSays, NoneSays;
      var before, node := nodes[..|nodes| - 1], nodes[|nodes| - 1];
      LanguagesSay(before, id, language);
      OneMoreNode(before, node, id, language);
      assert nodes == before + [node];
    }
  }

  lemma SourceLanguageShows(row: Row, own: seq<Row>, other: seq<Row>, shown: string)
    ensures ShowsSourceLanguage(row, own, other, shown)
            <==> EdgeLanguage(row, NodeLanguages(own), NodeLanguages(other)) == shown
  {
    hide NodeLanguages, LastSays, NoneSays;
    var source := if "source" in row && row["source"].Str? then row["source"].text else "";
    LanguagesSay(own, source, shown);
    LanguagesSay(other, source, shown);
  }

  /** The key computed for a row is the one key it belongs under. */
  lemma KeyIsWhereItBelongs(key: GroupKey, row: Row, from: Graph, other: Graph)
    ensures BelongsUnder(key, row, from, other) <==>
        && row in Rows(key.surface, from)
        && KeyOf(key.surface, row, NodeLanguages(from.nodes), NodeLanguages(other.nodes)) == key
  {
    hide Shows, Column, ShowsSourceLanguage, EdgeLanguage, ShowsResolver, EdgeResolution, NodeLanguages;
    ColumnShows(row, "language", key.language);
    ColumnShows(row, "kind", key.kind);
    ColumnShows(row, "reference_kind", key.kind);
    SourceLanguageShows(row, from.nodes, other.nodes, key.language);
    ResolutionShows(row, key.resolvedBy);
  }

  // ----- Node languages and the order of rows

  /** No two nodes that carry a language share an id. */
  ghost predicate UniqueIds(nodes: seq<Row>)
  {
    forall i, j ::
      (&& 0 <= i < j < |nodes|
       && StrOf(nodes[i], "language").Some? && StrOf(nodes[j], "language").Some?
       && StrOf(nodes[i], "id").Some?)
      ==> StrOf(nodes[i], "id") != StrOf(nodes[j], "id")
  }

  predicate Speaks(node: Row, id: string, language: string)
  {
    StrOf(node, "id") == Some(id) && StrOf(node, "language") == Some(language)
  }

  ghost predicate SomeNodeSpeaks(nodes: seq<Row>, id: string, language: string)
  {
    exists k :: 0 <= k < |nodes| && Speaks(nodes[k], id, language)
  }

  predicate MapsTo(languages: map<string, string>, id: string, language: string)
  {
    id in languages && languages[id] == language
  }

  /** With unique ids, the looked-up language is that of the one node with the id. */
  lemma {:induction false} LanguagesAreTheNodes(nodes: seq<Row>, id: string, language: string)
    requires UniqueIds(nodes)
    ensures MapsTo(NodeLanguages(nodes), id, language) <==> SomeNodeSpeaks(nodes, id, language)
  {
    if nodes != [] {
      var before, last := nodes[..|nodes| - 1], |nodes| - 1;
      LanguagesAreTheNodes(before, id, language);
      if SomeNodeSpeaks(before, id, language) {
        var k :| 0 <= k < last && Speaks(before[k], id, language);
        assert nodes[k] == before[k] && StrOf(nodes[k], "id") == Some(id);
        assert StrOf(nodes[last], "language").Some? ==> StrOf(nodes[last], "id") != Some(id);
        assert Speaks(nodes[k], id, language);
      }
      if SomeNodeSpeaks(nodes, id, language) {
        var k :| 0 <= k < |nodes| && Speaks(nodes[k], id, language);
        assert k < last ==> Speaks(before[k], id, language);
      }
    }
  }

  /** With unique ids, the order of the node rows does not matter. */
  lemma LanguagesForgetOrder(a: seq<Row>, b: seq<Row>)
    requires multiset(a) == multiset(b) && UniqueIds(a) && UniqueIds(b)
    ensures NodeLanguages(a) == NodeLanguages(b)
  {
    hide UniqueIds, NodeLanguages, SomeNodeSpeaks;
    var m, n := NodeLanguages(a), NodeLanguages(b);
    forall id, language
      ensures MapsTo(m, id, language) <==> MapsTo(n, id, language)
    {
      LanguagesAreTheNodes(a, id, language);
      LanguagesAreTheNodes(b, id, language);
      SpeakerSurvives(a, b, id, language);
      SpeakerSurvives(b, a, id, language);
    }
    forall id
      ensures id in m <==> id in n
      ensures id in m ==> m[id] == n[id]
    {
      if id in m {
        assert MapsTo(m, id, m[id]);
      }
      if id in n {
        assert MapsTo(n, id, n[id]);
      }
    }
  }

  lemma SpeakerSurvives(a: seq<Row>, b: seq<Row>, id: string, language: string)
    requires multiset(a) == multiset(b)
    ensures SomeNodeSpeaks(a, id, language) ==> SomeNodeSpeaks(b, id, language)
  {
    if k :| 0 <= k < |a| && Speaks(a[k], id, language) {
      assert a[k] in multiset(b);
      var j :| 0 <= j < |b| && b[j] == a[k];
    }
  }

  // ----- The report order of groups

  function SurfaceRank(surface: Surface): nat
  {
    match surface case Nodes => 0 case Edges => 1 case UnresolvedRefs => 2 case Files => 3
  }

  predicate KeyLe(a: GroupKey, b: GroupKey)
  {
    if a.surface != b.surface then SurfaceRank(a.surface) < SurfaceRank(b.surface)
    else if a.language != b.language then StringLe(a.language, b.language)
    else if a.kind != b.kind then StringLe(a.kind, b.kind)
    else StringLe(a.resolvedBy, b.resolvedBy)
  }

  lemma KeyLeIsTotalOrder()
    ensures TotalOrder(KeyLe)
  {
    StringLeIsTotalOrder();
    hide StringLe;
    forall a, b
      ensures KeyLe(a, b) || KeyLe(b, a)
      ensures KeyLe(a, b) && KeyLe(b, a) ==> a == b
    {
      assert StringLe(a.language, b.language) || StringLe(b.language, a.language);
      assert StringLe(a.kind, b.kind) || StringLe(b.kind, a.kind);
      assert StringLe(a.resolvedBy, b.resolvedBy) || StringLe(b.resolvedBy, a.resolvedBy);
    }
    forall a, b, c | KeyLe(a, b) && KeyLe(b, c)
      ensures KeyLe(a, c)
    {
      KeyLeTransitive(a, b, c);
    }
  }

  /** The order of the report: nodes, edges, references, files; then by language, kind and resolver. */
  lemma KeyLeIsByField(a: GroupKey, b: GroupKey)
    ensures KeyLe(a, b) <==>
        || a == b
        || (a.surface == Nodes && b.surface != Nodes)
        || (a.surface == Edges && (b.surface == UnresolvedRefs || b.surface == Files))
        || (a.surface == UnresolvedRefs && b.surface == Files)
        || (a.surface == b.surface
            && (|| Before(a.language, b.language)
                || (a.language == b.language && Before(a.kind, b.kind))
                || (a.language == b.language && a.kind == b.kind && Before(a.resolvedBy, b.resolvedBy))))
  {
    StringLeIsLexicographic(a.language, b.language);
    StringLeIsLexicographic(a.kind, b.kind);
    StringLeIsLexicographic(a.resolvedBy, b.resolvedBy);
    hide StringLe, Before;
  }

  lemma KeyLeTransitive(a: GroupKey, b: GroupKey, c: GroupKey)
    requires TotalOrder(StringLe) && KeyLe(a, b) && KeyLe(b, c)
    ensures KeyLe(a, c)
  {
    hide StringLe;
  }
}
