/**
 The canonical graph diff: per surface the multiset difference of rows both
 ways, grouped and sorted, with the schema's line difference.
 */
module GraphDiff {
  import opened Results
  import opened Sorting
  import opened GraphRows
  import opened Sequences
  import Bytes
  import LineDiff

  datatype GroupDiff = GroupDiff(key: GroupKey, removed: seq<string>, added: seq<string>)

  datatype SchemaDiff = SchemaDiff(removed: seq<string>, added: seq<string>)

  datatype Diff = Diff(groups: seq<GroupDiff>, schema: Option<SchemaDiff>)
  {
    predicate IsIdentical()
    {
      groups == [] && schema == None
    }

    /** How many rows of a surface went and how many came. */
    function Totals(surface: Surface): (nat, nat)
    {
      TotalsOf(groups, surface)
    }
  }

  function TotalsOf(groups: seq<GroupDiff>, surface: Surface): (nat, nat)
  {
    if groups == [] then (0, 0)
    else
      var (removed, added) := TotalsOf(groups[1..], surface);
      if groups[0].key.surface == surface then (removed + |groups[0].removed|, added + |groups[0].added|)
      else (removed, added)
  }

  // ----- What a diff has to be

  /** What `from` has more of than `other`, as JSON texts with multiplicity. */
  ghost function Surplus(json: Row -> string, surface: Surface, from: Graph, other: Graph): multiset<string>
  {
    multiset(Texts(json, Rows(surface, from))) - multiset(Texts(json, Rows(surface, other)))
  }

  /** Some row of `from` with text `t` belongs under `key`. */
  ghost predicate ReportedUnder(json: Row -> string, key: GroupKey, from: Graph, other: Graph, t: string)
  {
    exists row :: json(row) == t && BelongsUnder(key, row, from, other)
  }

  /** That is where its computed key puts it. */
  lemma ReportedByKey(json: Row -> string, key: GroupKey, from: Graph, other: Graph, t: string)
    ensures ReportedUnder(json, key, from, other, t) <==>
        exists row :: row in Rows(key.surface, from) && json(row) == t
                      && KeyOf(key.surface, row, NodeLanguages(from.nodes), NodeLanguages(other.nodes)) == key
  {
    hide BelongsUnder, KeyOf, NodeLanguages, Rows;
    forall row
      ensures BelongsUnder(key, row, from, other) <==>
          && row in Rows(key.surface, from)
          && KeyOf(key.surface, row, NodeLanguages(from.nodes), NodeLanguages(other.nodes)) == key
    {
      KeyIsWhereItBelongs(key, row, from, other);
    }
  }

  /** How many surplus copies of text `t` belong under `key`. */
  ghost function Expected(json: Row -> string, key: GroupKey, from: Graph, other: Graph, t: string): nat
  {
    if ReportedUnder(json, key, from, other, t) then Surplus(json, key.surface, from, other)[t] else 0
  }

  ghost predicate IsGroup(json: Row -> string, left: Graph, right: Graph, g: GroupDiff)
  {
    && Ascending(g.removed, StringLe) && Ascending(g.added, StringLe)
    && (g.removed != [] || g.added != [])
    && (forall t :: multiset(g.removed)[t] == Expected(json, g.key, left, right, t))
    && (forall t :: multiset(g.added)[t] == Expected(json, g.key, right, left, t))
  }

  /** Some row is to be reported under `key`. */
  ghost predicate Needed(json: Row -> string, left: Graph, right: Graph, key: GroupKey)
  {
    exists t :: Expected(json, key, left, right, t) > 0 || Expected(json, key, right, left, t) > 0
  }

  function Keys(groups: seq<GroupDiff>): (keys: seq<GroupKey>)
    ensures |keys| == |groups| && forall k :: 0 <= k < |groups| ==> keys[k] == groups[k].key
  {
    if groups == [] then [] else [groups[0].key] + Keys(groups[1..])
  }

  function SchemaPart(left: Graph, right: Graph): Option<SchemaDiff>
  {
    if left.schema == right.schema then None
    else
      Some(SchemaDiff(LineDiff.Unmatched(Bytes.Lines(left.schema), multiset(Bytes.Lines(right.schema))),
                      LineDiff.Unmatched(Bytes.Lines(right.schema), multiset(Bytes.Lines(left.schema)))))
  }

  /** Groups in key order without repetition, one for every key some surplus row belongs under, each with
      exactly the surplus copies that belong under it, sorted. */
  ghost predicate IsDiff(json: Row -> string, left: Graph, right: Graph, diff: Diff)
  {
    && Ascending(Keys(diff.groups), KeyLe) && Distinct(Keys(diff.groups))
    && (forall k :: 0 <= k < |diff.groups| ==> IsGroup(json, left, right, diff.groups[k]))
    && (forall key :: Needed(json, left, right, key) ==> key in Keys(diff.groups))
    && diff.schema == SchemaPart(left, right)
  }

  // ----- That pins the diff down

  lemma GroupIsNeeded(json: Row -> string, left: Graph, right: Graph, g: GroupDiff)
    requires IsGroup(json, left, right, g)
    ensures Needed(json, left, right, g.key)
  {
    if g.removed != [] {
      var t := g.removed[0];
      assert multiset(g.removed)[t] > 0;
      assert Expected(json, g.key, left, right, t) > 0;
    } else {
      var t := g.added[0];
      assert multiset(g.added)[t] > 0;
      assert Expected(json, g.key, right, left, t) > 0;
    }
  }

  lemma SameKeyIsSameGroup(json: Row -> string, left: Graph, right: Graph, g: GroupDiff, h: GroupDiff)
    requires IsGroup(json, left, right, g) && IsGroup(json, left, right, h) && g.key == h.key
    ensures g == h
  {
    StringLeIsTotalOrder();
    assert multiset(g.removed) == multiset(h.removed) by {
      forall t
        ensures multiset(g.removed)[t] == multiset(h.removed)[t]
      {
      }
    }
    assert multiset(g.added) == multiset(h.added) by {
      forall t
        ensures multiset(g.added)[t] == multiset(h.added)[t]
      {
      }
    }
    AscendingIsUnique(g.removed, h.removed, StringLe);
    AscendingIsUnique(g.added, h.added, StringLe);
  }

  lemma KeyInBoth(json: Row -> string, left: Graph, right: Graph, d: Diff, e: Diff, key: GroupKey)
    requires IsDiff(json, left, right, d) && IsDiff(json, left, right, e) && key in Keys(d.groups)
    ensures key in Keys(e.groups)
  {
    var k :| 0 <= k < |Keys(d.groups)| && Keys(d.groups)[k] == key;
    GroupIsNeeded(json, left, right, d.groups[k]);
  }

  /** Two graphs have one diff. */
  lemma DiffIsUnique(json: Row -> string, left: Graph, right: Graph, d: Diff, e: Diff)
    requires IsDiff(json, left, right, d) && IsDiff(json, left, right, e)
    ensures d == e
  {
    KeyLeIsTotalOrder();
    forall key
      ensures key in Keys(d.groups) <==> key in Keys(e.groups)
    {
      if key in Keys(d.groups) { KeyInBoth(json, left, right, d, e, key); }
      if key in Keys(e.groups) { KeyInBoth(json, left, right, e, d, key); }
    }
    AscendingSetIsUnique(Keys(d.groups), Keys(e.groups), KeyLe);
    forall k | 0 <= k < |d.groups|
      ensures d.groups[k] == e.groups[k]
    {
      assert Keys(d.groups)[k] == Keys(e.groups)[k];
      SameKeyIsSameGroup(json, left, right, d.groups[k], e.groups[k]);
    }
  }

  /** A removed text is that of a row of the left graph that belongs under the key, an added one that of such a row
      of the right graph, whose edges take their language from the right graph first. */
  lemma ReportedRowsBelong(json: Row -> string, left: Graph, right: Graph, d: Diff, k: nat, t: string)
    requires IsDiff(json, left, right, d) && k < |d.groups|
    ensures t in d.groups[k].removed ==> exists row :: json(row) == t && BelongsUnder(d.groups[k].key, row, left, right)
    ensures t in d.groups[k].added ==> exists row :: json(row) == t && BelongsUnder(d.groups[k].key, row, right, left)
  {
    hide BelongsUnder, Surplus;
    var g := d.groups[k];
    assert IsGroup(json, left, right, g);
    assert t in g.removed <==> t in multiset(g.removed);
    assert t in g.added <==> t in multiset(g.added);
  }

  /** The schema part is there exactly if the schema texts differ; its lines are, in order and with multiplicity,
      those each text has more of. */
  lemma SchemaConserves(json: Row -> string, left: Graph, right: Graph, d: Diff)
    requires IsDiff(json, left, right, d)
    ensures d.schema.None? <==> left.schema == right.schema
    ensures var l, r := Bytes.Lines(left.schema), Bytes.Lines(right.schema);
            d.schema.Some? ==>
              && Subsequence(d.schema.value.removed, l)
              && multiset(d.schema.value.removed) == multiset(l) - multiset(r)
              && Subsequence(d.schema.value.added, r)
              && multiset(d.schema.value.added) == multiset(r) - multiset(l)
  {
    var l, r := Bytes.Lines(left.schema), Bytes.Lines(right.schema);
    LineDiff.UnmatchedIsTheDifference(l, multiset(r));
    LineDiff.UnmatchedIsTheDifference(r, multiset(l));
  }

  // ----- Mirror symmetry and row order

  function MirrorGroups(groups: seq<GroupDiff>): (mirrored: seq<GroupDiff>)
    ensures |mirrored| == |groups|
    ensures forall k :: 0 <= k < |groups| ==>
        mirrored[k] == GroupDiff(groups[k].key, groups[k].added, groups[k].removed)
  {
    if groups == [] then []
    else [GroupDiff(groups[0].key, groups[0].added, groups[0].removed)] + MirrorGroups(groups[1..])
  }

  /** The same groups in the same order with removed and added swapped, and likewise the schema lines. */
  function Mirror(diff: Diff): Diff
  {
    Diff(MirrorGroups(diff.groups),
         match diff.schema case None => None case Some(s) => Some(SchemaDiff(s.added, s.removed)))
  }

  lemma MirrorIsDiff(json: Row -> string, left: Graph, right: Graph, d: Diff)
    requires IsDiff(json, left, right, d)
    ensures IsDiff(json, right, left, Mirror(d))
  {
    var m := Mirror(d);
    assert Keys(m.groups) == Keys(d.groups);
    forall k | 0 <= k < |m.groups|
      ensures IsGroup(json, right, left, m.groups[k])
    {
      assert IsGroup(json, left, right, d.groups[k]);
    }
    forall key | Needed(json, right, left, key)
      ensures key in Keys(m.groups)
    {
      assert Needed(json, left, right, key);
    }
  }

  /** Swapping the graphs mirrors the diff, though either side prefers its own languages for its edges. */
  lemma SwappingMirrors(json: Row -> string, left: Graph, right: Graph, d: Diff, e: Diff)
    requires IsDiff(json, left, right, d) && IsDiff(json, right, left, e)
    ensures e == Mirror(d)
  {
    MirrorIsDiff(json, left, right, d);
    DiffIsUnique(json, right, left, e, Mirror(d));
  }

  ghost predicate Permuted(a: Graph, b: Graph)
  {
    && (forall surface :: multiset(Rows(surface, a)) == multiset(Rows(surface, b)))
    && UniqueIds(a.nodes) && UniqueIds(b.nodes)
    && a.schema == b.schema
  }

  lemma PermutedLooksTheSame(json: Row -> string, a: Graph, b: Graph, surface: Surface)
    requires Permuted(a, b)
    ensures multiset(Texts(json, Rows(surface, a))) == multiset(Texts(json, Rows(surface, b)))
    ensures NodeLanguages(a.nodes) == NodeLanguages(b.nodes)
    ensures forall row :: row in Rows(surface, a) <==> row in Rows(surface, b)
  {
    assert multiset(Rows(Nodes, a)) == multiset(Rows(Nodes, b));
    LanguagesForgetOrder(a.nodes, b.nodes);
    TextsForgetOrder(json, Rows(surface, a), Rows(surface, b));
    forall row
      ensures row in Rows(surface, a) <==> row in Rows(surface, b)
    {
      assert row in Rows(surface, a) <==> row in multiset(Rows(surface, a));
    }
  }

  function Without<T>(s: seq<T>, k: nat): seq<T>
    requires k < |s|
  {
    s[..k] + s[k + 1..]
  }

  lemma WithoutContents<T>(s: seq<T>, k: nat)
    requires k < |s|
    ensures multiset(s) == multiset(Without(s, k)) + multiset{s[k]}
  {
    assert s == s[..k] + ([s[k]] + s[k + 1..]);
  }

  lemma TextsWithout(json: Row -> string, rows: seq<Row>, k: nat)
    requires k < |rows|
    ensures |Texts(json, rows)| == |rows| && Texts(json, rows)[k] == json(rows[k])
    ensures Texts(json, Without(rows, k)) == Without(Texts(json, rows), k)
  {
    hide Texts;
    TextAt(json, rows);
    TextAt(json, Without(rows, k));
    hide Without;
    var texts, left := Texts(json, rows), Texts(json, Without(rows, k));
    WithoutAt(rows, k);
    WithoutAt(texts, k);
    assert |left| == |Without(texts, k)|;
    forall i | 0 <= i < |left|
      ensures left[i] == Without(texts, k)[i]
    {
    }
  }

  lemma WithoutAt<T>(s: seq<T>, k: nat)
    requires k < |s|
    ensures |Without(s, k)| == |s| - 1
    ensures forall i :: 0 <= i < |s| - 1 ==> Without(s, k)[i] == s[if i < k then i else i + 1]
  {
  }

  lemma {:induction false} TextsForgetOrder(json: Row -> string, a: seq<Row>, b: seq<Row>)
    requires multiset(a) == multiset(b)
    ensures multiset(Texts(json, a)) == multiset(Texts(json, b))
    decreases |a|
  {
    assert |a| == |multiset(a)| == |b|;
    if a != [] {
      hide Texts, Without;
      assert a[0] in multiset(b);
      var k :| 0 <= k < |b| && b[k] == a[0];
      WithoutContents(a, 0);
      WithoutContents(b, k);
      assert multiset(Without(a, 0)) == multiset(a) - multiset{a[0]} == multiset(Without(b, k));
      WithoutIsShorter(a, 0);
      TextsForgetOrder(json, Without(a, 0), Without(b, k));
      TextsWithout(json, a, 0);
      TextsWithout(json, b, k);
      WithoutContents(Texts(json, a), 0);
      WithoutContents(Texts(json, b), k);
    }
  }

  lemma WithoutIsShorter<T>(s: seq<T>, k: nat)
    requires k < |s|
    ensures |Without(s, k)| == |s| - 1
  {
  }

  lemma PermutedExpected(json: Row -> string, left: Graph, right: Graph, left': Graph, right': Graph,
                         key: GroupKey, t: string)
    requires Permuted(left, left') && Permuted(right, right')
    ensures Expected(json, key, left, right, t) == Expected(json, key, left', right', t)
  {
    hide Permuted, Texts, NodeLanguages, KeyOf, Rows, ReportedUnder;
    PermutedLooksTheSame(json, left, left', key.surface);
    PermutedLooksTheSame(json, right, right', key.surface);
    ReportedByKey(json, key, left, right, t);
    ReportedByKey(json, key, left', right', t);
  }

  lemma SameSchemas(a: Graph, b: Graph)
    requires Permuted(a, b)
    ensures a.schema == b.schema
  {
  }

  /** With unique node ids, permuting the input rows of both graphs changes nothing. */
  lemma RowOrderDoesNotMatter(json: Row -> string, left: Graph, right: Graph, left': Graph, right': Graph,
                              d: Diff, e: Diff)
    requires Permuted(left, left') && Permuted(right, right')
    requires IsDiff(json, left, right, d) && IsDiff(json, left', right', e)
    ensures d == e
  {
    hide Expected, Permuted, Distinct;
    forall key, t
      ensures Expected(json, key, left, right, t) == Expected(json, key, left', right', t)
      ensures Expected(json, key, right, left, t) == Expected(json, key, right', left', t)
    {
      PermutedExpected(json, left, right, left', right', key, t);
      PermutedExpected(json, right, left, right', left', key, t);
    }
    assert SchemaPart(left, right) == SchemaPart(left', right') by {
      SameSchemas(left, left');
      SameSchemas(right, right');
    }
    forall k | 0 <= k < |e.groups|
      ensures IsGroup(json, left, right, e.groups[k])
    {
      assert IsGroup(json, left', right', e.groups[k]);
    }
    forall key | Needed(json, left, right, key)
      ensures Needed(json, left', right', key)
    {
    }
    DiffIsUnique(json, left, right, d, e);
  }

  // ----- Conservation

  /** The rows removed on one surface over all groups. */
  ghost function AllRemoved(groups: seq<GroupDiff>, surface: Surface): multiset<string>
  {
    if groups == [] then multiset{}
    else
      (if groups[0].key.surface == surface then multiset(groups[0].removed) else multiset{})
      + AllRemoved(groups[1..], surface)
  }

  ghost function AllAdded(groups: seq<GroupDiff>, surface: Surface): multiset<string>
  {
    AllRemoved(MirrorGroups(groups), surface)
  }

  /** Copies of `t` that lie only under `key` are counted once. */
  lemma {:induction false} CountedOnce(groups: seq<GroupDiff>, surface: Surface, t: string, key: GroupKey, n: nat)
    requires Distinct(Keys(groups)) && key.surface == surface
    requires forall k :: 0 <= k < |groups| && groups[k].key.surface == surface ==>
        multiset(groups[k].removed)[t] == if groups[k].key == key then n else 0
    ensures AllRemoved(groups, surface)[t] == if key in Keys(groups) then n else 0
    decreases groups
  {
    if groups != [] {
      var rest := groups[1..];
      assert Keys(groups)[1..] == Keys(rest);
      forall i, j | 0 <= i < j < |Keys(rest)|
        ensures Keys(rest)[i] != Keys(rest)[j]
      {
        assert Keys(groups)[i + 1] != Keys(groups)[j + 1];
      }
      CountedOnce(rest, surface, t, key, n);
      assert Keys(groups) == [groups[0].key] + Keys(rest);
      if groups[0].key == key {
        forall k | 0 <= k < |Keys(rest)|
          ensures Keys(rest)[k] != key
        {
          assert Keys(groups)[0] != Keys(groups)[k + 1];
        }
      }
    }
  }

  /** A surplus text belongs under the key of its row, and under no other. */
  lemma OneKeyPerText(json: Row -> string, surface: Surface, from: Graph, other: Graph, t: string)
    returns (key: GroupKey)
    requires Injective(json, AllRows(from, other))
    ensures key.surface == surface
    ensures forall k: GroupKey :: k.surface == surface ==>
        Expected(json, k, from, other, t) == if k == key then Surplus(json, surface, from, other)[t] else 0
  {
    var own, others := NodeLanguages(from.nodes), NodeLanguages(other.nodes);
    TextsAreRows(json, Rows(surface, from));
    key := GroupKey(surface, NONE, NONE, NONE);
    hide Texts, KeyOf, NodeLanguages, Rows, ReportedUnder, AllRows, Injective;
    if t in Texts(json, Rows(surface, from)) {
      var row :| row in Rows(surface, from) && json(row) == t;
      key := KeyOf(surface, row, own, others);
      KeepsSurface(surface, row, own, others);
      forall k: GroupKey | k.surface == surface
        ensures ReportedUnder(json, k, from, other, t) <==> k == key
      {
        OneRowPerText(json, k, from, other, row);
      }
    } else {
      assert Surplus(json, surface, from, other)[t] == 0;
    }
  }

  lemma KeepsSurface(surface: Surface, row: Row, own: map<string, string>, others: map<string, string>)
    ensures KeyOf(surface, row, own, others).surface == surface
  {
  }

  /** A text of a row is reported under the key of that row and no other. */
  lemma OneRowPerText(json: Row -> string, key: GroupKey, from: Graph, other: Graph, row: Row)
    requires Injective(json, AllRows(from, other)) && row in Rows(key.surface, from)
    ensures ReportedUnder(json, key, from, other, json(row))
            <==> KeyOf(key.surface, row, NodeLanguages(from.nodes), NodeLanguages(other.nodes)) == key
  {
    ReportedByKey(json, key, from, other, json(row));
    RowsAreAmong(from, other, key.surface);
    hide ReportedUnder, AllRows, KeyOf, NodeLanguages, Rows;
  }

  lemma GroupedIsSurplus(json: Row -> string, left: Graph, right: Graph, d: Diff, surface: Surface)
    requires Injective(json, AllRows(left, right)) && IsDiff(json, left, right, d)
    ensures AllRemoved(d.groups, surface) == Surplus(json, surface, left, right)
  {
    forall t
      ensures AllRemoved(d.groups, surface)[t] == Surplus(json, surface, left, right)[t]
    {
      var n := Surplus(json, surface, left, right)[t];
      var key := OneKeyPerText(json, surface, left, right, t);
      forall k | 0 <= k < |d.groups| && d.groups[k].key.surface == surface
        ensures multiset(d.groups[k].removed)[t] == if d.groups[k].key == key then n else 0
      {
        assert IsGroup(json, left, right, d.groups[k]);
      }
      CountedOnce(d.groups, surface, t, key, n);
      if n > 0 {
        assert Expected(json, key, left, right, t) > 0;
        assert Needed(json, left, right, key);
      }
    }
  }

  /** On each surface: left minus removed plus added is right, nothing is both removed and added, and the
      totals are the sizes of the two multiset differences. */
  lemma DiffConserves(json: Row -> string, left: Graph, right: Graph, d: Diff, surface: Surface)
    requires Injective(json, AllRows(left, right)) && IsDiff(json, left, right, d)
    ensures var l, r := multiset(Texts(json, Rows(surface, left))), multiset(Texts(json, Rows(surface, right)));
            var removed, added := AllRemoved(d.groups, surface), AllAdded(d.groups, surface);
            && removed == l - r && added == r - l
            && removed <= l && l - removed + added == r
            && removed !! added
            && d.Totals(surface) == (|l - r|, |r - l|)
  {
    hide AllRows, Injective, IsDiff, AllRemoved, Texts, Rows;
    GroupedIsSurplus(json, left, right, d, surface);
    MirrorIsDiff(json, left, right, d);
    AllRowsEitherWay(left, right);
    GroupedIsSurplus(json, right, left, Mirror(d), surface);
    TotalsAreSizes(d.groups, surface);
  }

  lemma TotalsAreSizes(groups: seq<GroupDiff>, surface: Surface)
    ensures TotalsOf(groups, surface) == (|AllRemoved(groups, surface)|, |AllAdded(groups, surface)|)
  {
    RemovedSize(groups, surface);
    RemovedSize(MirrorGroups(groups), surface);
    MirroredTotals(groups, surface);
  }

  lemma {:induction false} RemovedSize(groups: seq<GroupDiff>, surface: Surface)
    ensures TotalsOf(groups, surface).0 == |AllRemoved(groups, surface)|
    decreases groups
  {
    if groups != [] {
      RemovedSize(groups[1..], surface);
      var first, rest := multiset(groups[0].removed), AllRemoved(groups[1..], surface);
      assert |first + rest| == |first| + |rest| && |first| == |groups[0].removed|;
      assert multiset{} + rest == rest;
    }
  }

  lemma {:induction false} MirroredTotals(groups: seq<GroupDiff>, surface: Surface)
    ensures TotalsOf(MirrorGroups(groups), surface) == (TotalsOf(groups, surface).1, TotalsOf(groups, surface).0)
    decreases groups
  {
    if groups != [] {
      MirroredTotals(groups[1..], surface);
      assert MirrorGroups(groups)[1..] == MirrorGroups(groups[1..]);
    }
  }

  // ----- Identity

  lemma WithoutKeepsFew<T>(s: seq<T>, k: nat)
    requires k < |s|
    ensures forall x :: x in Without(s, k) ==> x in s
  {
  }

  /** The first row of `a` occurs in `b`, and taking it out of both keeps the texts equal. */
  lemma MatchFirst(json: Row -> string, rows: set<Row>, a: seq<Row>, b: seq<Row>) returns (k: nat)
    requires Injective(json, rows) && (forall row :: row in a || row in b ==> row in rows)
    requires a != [] && multiset(Texts(json, a)) == multiset(Texts(json, b))
    ensures k < |b| && b[k] == a[0]
    ensures multiset(Texts(json, Without(a, 0))) == multiset(Texts(json, Without(b, k)))
  {
    TextsAreRows(json, a);
    TextsAreRows(json, b);
    hide Texts, Without;
    assert Texts(json, a)[0] in multiset(Texts(json, b));
    k :| 0 <= k < |b| && Texts(json, b)[k] == Texts(json, a)[0];
    assert json(a[0]) == json(b[k]);
    TextsWithout(json, a, 0);
    TextsWithout(json, b, k);
    WithoutContents(Texts(json, a), 0);
    WithoutContents(Texts(json, b), k);
    var text := multiset{Texts(json, a)[0]};
    assert multiset(Without(Texts(json, a), 0)) == multiset(Texts(json, a)) - text;
    assert multiset(Without(Texts(json, b), k)) == multiset(Texts(json, b)) - text;
  }

  /** Distinct rows have distinct texts, so texts agree with multiplicity exactly when rows do. */
  lemma {:induction false} TextsDetermineRows(json: Row -> string, rows: set<Row>, a: seq<Row>, b: seq<Row>)
    requires Injective(json, rows) && (forall row :: row in a || row in b ==> row in rows)
    requires multiset(Texts(json, a)) == multiset(Texts(json, b))
    ensures multiset(a) == multiset(b)
    decreases |a|
  {
    hide Texts, Without, Injective;
    if a != [] {
      var k := MatchFirst(json, rows, a, b);
      WithoutIsShorter(a, 0);
      WithoutKeepsFew(a, 0);
      WithoutKeepsFew(b, k);
      TextsDetermineRows(json, rows, Without(a, 0), Without(b, k));
      WithoutContents(a, 0);
      WithoutContents(b, k);
    } else {
      TextsAreRows(json, a);
      TextsAreRows(json, b);
      assert |multiset(Texts(json, a))| == |multiset(Texts(json, b))|;
      assert b == [];
    }
  }

  lemma NoSurplusMeansEqualRows(json: Row -> string, left: Graph, right: Graph, surface: Surface)
    requires Injective(json, AllRows(left, right))
    ensures Surplus(json, surface, left, right) == multiset{} && Surplus(json, surface, right, left) == multiset{} <==>
            multiset(Rows(surface, left)) == multiset(Rows(surface, right))
  {
    hide Texts, Rows, Injective, AllRows;
    var l, r := multiset(Texts(json, Rows(surface, left))), multiset(Texts(json, Rows(surface, right)));
    if multiset(Rows(surface, left)) == multiset(Rows(surface, right)) {
      TextsForgetOrder(json, Rows(surface, left), Rows(surface, right));
    }
    if l - r == multiset{} && r - l == multiset{} {
      assert l == r;
      RowsAreAmong(left, right, surface);
      TextsDetermineRows(json, AllRows(left, right), Rows(surface, left), Rows(surface, right));
    }
  }

  lemma NoGroupsNoSurplus(json: Row -> string, left: Graph, right: Graph, d: Diff, surface: Surface)
    requires Injective(json, AllRows(left, right)) && IsDiff(json, left, right, d) && d.groups == []
    ensures multiset(Rows(surface, left)) == multiset(Rows(surface, right))
  {
    DiffConserves(json, left, right, d, surface);
    NoSurplusMeansEqualRows(json, left, right, surface);
  }

  lemma SomeGroupSomeSurplus(json: Row -> string, left: Graph, right: Graph, g: GroupDiff)
    requires Injective(json, AllRows(left, right)) && IsGroup(json, left, right, g)
    ensures multiset(Rows(g.key.surface, left)) != multiset(Rows(g.key.surface, right))
  {
    GroupIsNeeded(json, left, right, g);
    NoSurplusMeansEqualRows(json, left, right, g.key.surface);
    hide Surplus, ReportedUnder;
    var t :| Expected(json, g.key, left, right, t) > 0 || Expected(json, g.key, right, left, t) > 0;
  }

  /** The diff is reported identical exactly when all four row multisets and the schema text agree. */
  lemma IdenticalMeansEqual(json: Row -> string, left: Graph, right: Graph, d: Diff)
    requires Injective(json, AllRows(left, right)) && IsDiff(json, left, right, d)
    ensures d.IsIdentical() <==>
        && (forall surface :: multiset(Rows(surface, left)) == multiset(Rows(surface, right)))
        && left.schema == right.schema
  {
    if d.groups == [] {
      forall surface
        ensures multiset(Rows(surface, left)) == multiset(Rows(surface, right))
      {
        NoGroupsNoSurplus(json, left, right, d, surface);
      }
    } else {
      SomeGroupSomeSurplus(json, left, right, d.groups[0]);
    }
  }
}
