/** The loops of the graph diff: counting rows, listing surplus copies, filling the groups. */
module GraphDiffRun {
  import opened Results
  import opened Sorting
  import opened GraphRows
  import opened GraphDiff
  import LineDiff

  /** Each distinct row with its multiplicity, keyed by its text. */
  datatype Counted = Counted(count: nat, row: Row)

  function Occurrences(s: seq<string>, t: string): nat
  {
    multiset(s)[t]
  }

  lemma OneMoreOccurrence(s: seq<string>, last: string, t: string)
    ensures Occurrences(s + [last], t) == Occurrences(s, t) + if last == t then 1 else 0
    ensures t in s <==> Occurrences(s, t) > 0
  {
    assert t in s <==> t in multiset(s);
  }

  ghost predicate Counts(json: Row -> string, rows: seq<Row>, counted: map<string, Counted>)
  {
    && (forall t :: t in counted <==> Occurrences(Texts(json, rows), t) > 0)
    && (forall t :: t in counted ==> counted[t].count == Occurrences(Texts(json, rows), t)
                                     && counted[t].row in rows && json(counted[t].row) == t)
  }

  function MultiplicityOf(counted: map<string, Counted>, t: string): nat
  {
    if t in counted then counted[t].count else 0
  }

  /** One more copy of a row; the first row of a text is kept. */
  function CountRow(counted: map<string, Counted>, text: string, row: Row): map<string, Counted>
  {
    var entry := if text in counted then counted[text] else Counted(0, row);
    counted[text := entry.(count := entry.count + 1)]
  }

  method CountedRows(json: Row -> string, rows: seq<Row>) returns (counted: map<string, Counted>)
    ensures Counts(json, rows, counted)
  {
    counted := map[];
    assert Counts(json, [], counted);
    assert rows[..0] == [];
    hide Counts, CountRow;
    for i := 0 to |rows|
      invariant Counts(json, rows[..i], counted)
    {
      OneMoreCounted(json, rows, i, counted);
      counted := CountRow(counted, json(rows[i]), rows[i]);
    }
    assert rows[..|rows|] == rows;
  }

  /** Counting one more row leaves every other text alone, and keeps the row of a text already counted. */
  lemma CountRowAt(counted: map<string, Counted>, text: string, row: Row, t: string)
    ensures var next := CountRow(counted, text, row);
            && MultiplicityOf(next, t) == MultiplicityOf(counted, t) + (if t == text then 1 else 0)
            && (t in next <==> t in counted || t == text)
            && (t in next ==> next[t].row == if t in counted then counted[t].row else row)
  {
  }

  lemma OneMoreCounted(json: Row -> string, rows: seq<Row>, i: nat, counted: map<string, Counted>)
    requires i < |rows| && Counts(json, rows[..i], counted)
    ensures Counts(json, rows[..i + 1], CountRow(counted, json(rows[i]), rows[i]))
  {
    hide Texts, Occurrences, CountRow;
    var next := CountRow(counted, json(rows[i]), rows[i]);
    OneMoreText(json, rows, i);
    forall t
      ensures t in next <==> Occurrences(Texts(json, rows[..i + 1]), t) > 0
      ensures t in next ==> next[t].count == Occurrences(Texts(json, rows[..i + 1]), t)
    {
      CountRowAt(counted, json(rows[i]), rows[i], t);
      OneMoreOccurrence(Texts(json, rows[..i]), json(rows[i]), t);
    }
    forall t | t in next
      ensures next[t].row in rows[..i + 1] && json(next[t].row) == t
    {
      CountRowAt(counted, json(rows[i]), rows[i], t);
    }
  }

  lemma OneMoreText(json: Row -> string, rows: seq<Row>, i: nat)
    requires i < |rows|
    ensures Texts(json, rows[..i + 1]) == Texts(json, rows[..i]) + [json(rows[i])]
    ensures forall row :: row in rows[..i + 1] <==> row in rows[..i] || row == rows[i]
  {
    assert rows[..i + 1] == rows[..i] + [rows[i]];
    assert rows[..i + 1][..|rows[..i + 1]| - 1] == rows[..i];
  }

  // ----- Surplus copies

  datatype Copy = Copy(text: string, row: Row)

  /** How often the text `t` is listed. */
  function Listed(copies: seq<Copy>, t: string): nat
  {
    if copies == [] then 0
    else Listed(copies[..|copies| - 1], t) + if copies[|copies| - 1].text == t then 1 else 0
  }

  ghost predicate ListsSurplus(json: Row -> string, surface: Surface, from: Graph, other: Graph, copies: seq<Copy>)
  {
    && (forall t :: Listed(copies, t) == Surplus(json, surface, from, other)[t])
    && (forall k :: 0 <= k < |copies| ==> copies[k].row in Rows(surface, from) && json(copies[k].row) == copies[k].text)
  }

  function Less(a: nat, b: nat): nat
  {
    if a < b then 0 else a - b
  }

  /** The copies listed so far: those of the first `done` texts in order. */
  ghost predicate ListedSoFar(from: map<string, Counted>, other: map<string, Counted>, order: seq<string>, done: nat,
                              copies: seq<Copy>)
    requires done <= |order|
  {
    && (forall t :: Listed(copies, t)
                    == if t in order[..done] then Less(MultiplicityOf(from, t), MultiplicityOf(other, t)) else 0)
    && (forall k :: 0 <= k < |copies| ==> copies[k].text in from && copies[k].row == from[copies[k].text].row)
  }

  method SurplusRows(from: map<string, Counted>, other: map<string, Counted>) returns (copies: seq<Copy>)
    ensures forall t :: Listed(copies, t) == Less(MultiplicityOf(from, t), MultiplicityOf(other, t))
    ensures forall k :: 0 <= k < |copies| ==> copies[k].text in from && copies[k].row == from[copies[k].text].row
  {
    StringLeIsTotalOrder();
    var order := InOrder(from.Keys, StringLe);
    copies := [];
    for i := 0 to |order|
      invariant ListedSoFar(from, other, order, i, copies)
    {
      copies := ListText(from, other, order, i, order[i], copies);
    }
    assert order[..|order|] == order;
  }

  /** List the surplus copies of one text. */
  method ListText(from: map<string, Counted>, other: map<string, Counted>, ghost order: seq<string>, ghost i: nat,
                  text: string, before: seq<Copy>)
    returns (copies: seq<Copy>)
    requires i < |order| && Distinct(order) && order[i] == text && text in from
    requires ListedSoFar(from, other, order, i, before)
    ensures ListedSoFar(from, other, order, i + 1, copies)
  {
    copies := before;
    var copy := MultiplicityOf(other, text);
    while copy < from[text].count
      invariant forall t ::
          Listed(copies, t) == Listed(before, t) + if t == text then Less(copy, MultiplicityOf(other, text)) else 0
      invariant copy == MultiplicityOf(other, text) || copy <= from[text].count
      invariant MultiplicityOf(other, text) <= copy
      invariant forall k :: 0 <= k < |copies| ==> copies[k].text in from && copies[k].row == from[copies[k].text].row
    {
      OneMoreCopy(copies, Copy(text, from[text].row));
      copies := copies + [Copy(text, from[text].row)];
      copy := copy + 1;
    }
    assert order[..i + 1] == order[..i] + [text];
    assert text !in order[..i];
  }

  lemma OneMoreCopy(copies: seq<Copy>, copy: Copy)
    ensures forall t :: Listed(copies + [copy], t) == Listed(copies, t) + if copy.text == t then 1 else 0
  {
    assert (copies + [copy])[..|copies|] == copies;
  }

  lemma SurplusIsListed(json: Row -> string, surface: Surface, from: Graph, other: Graph,
                        own: map<string, Counted>, others: map<string, Counted>, copies: seq<Copy>)
    requires Counts(json, Rows(surface, from), own) && Counts(json, Rows(surface, other), others)
    requires forall t :: Listed(copies, t) == Less(MultiplicityOf(own, t), MultiplicityOf(others, t))
    requires forall k :: 0 <= k < |copies| ==> copies[k].text in own && copies[k].row == own[copies[k].text].row
    ensures ListsSurplus(json, surface, from, other, copies)
  {
    hide Texts, Rows, Counts, MultiplicityOf, Listed, Surplus, Less, Occurrences;
    forall t
      ensures Listed(copies, t) == Surplus(json, surface, from, other)[t]
    {
      CountIsMultiplicity(json, Rows(surface, from), own, t);
      CountIsMultiplicity(json, Rows(surface, other), others, t);
      SurplusCount(json, surface, from, other, t);
    }
    forall k | 0 <= k < |copies|
      ensures copies[k].row in Rows(surface, from) && json(copies[k].row) == copies[k].text
    {
      CountIsMultiplicity(json, Rows(surface, from), own, copies[k].text);
    }
  }

  lemma SurplusCount(json: Row -> string, surface: Surface, from: Graph, other: Graph, t: string)
    ensures Surplus(json, surface, from, other)[t]
            == Less(Occurrences(Texts(json, Rows(surface, from)), t), Occurrences(Texts(json, Rows(surface, other)), t))
  {
    hide Texts, Rows;
  }

  lemma CountIsMultiplicity(json: Row -> string, rows: seq<Row>, counted: map<string, Counted>, t: string)
    requires Counts(json, rows, counted)
    ensures MultiplicityOf(counted, t) == Occurrences(Texts(json, rows), t)
    ensures t in counted ==> counted[t].row in rows && json(counted[t].row) == t
  {
    hide Texts, Occurrences;
  }

  // ----- Filling the groups

  type Groups = map<GroupKey, (seq<string>, seq<string>)>

  /** What is filed under `key` on one side. */
  function Side(groups: Groups, key: GroupKey, added: bool): seq<string>
  {
    if key !in groups then [] else if added then groups[key].1 else groups[key].0
  }

  /** No group without a row. */
  ghost predicate NoEmptyGroup(groups: Groups)
  {
    forall key :: key in groups <==> Side(groups, key, false) != [] || Side(groups, key, true) != []
  }

  /** How many of the copies have the text `t` and belong under `key`. */
  function Keyed(surface: Surface, copies: seq<Copy>, own: map<string, string>, others: map<string, string>,
                 key: GroupKey, t: string): nat
  {
    if copies == [] then 0
    else
      var last := copies[|copies| - 1];
      Keyed(surface, copies[..|copies| - 1], own, others, key, t)
      + if last.text == t && KeyOf(surface, last.row, own, others) == key then 1 else 0
  }

  /** `after` is `groups` with `copies` filed on one side. */
  ghost predicate Filed(groups: Groups, after: Groups, surface: Surface, copies: seq<Copy>,
                        own: map<string, string>, others: map<string, string>, added: bool)
  {
    && (forall key, t :: Occurrences(Side(after, key, added), t)
                         == Occurrences(Side(groups, key, added), t) + Keyed(surface, copies, own, others, key, t))
    && (forall key, side :: side != added ==> Side(after, key, side) == Side(groups, key, side))
    && NoEmptyGroup(after)
  }

  function PushText(groups: Groups, key: GroupKey, text: string, added: bool): Groups
  {
    var entry := if key in groups then groups[key] else ([], []);
    groups[key := if added then (entry.0, entry.1 + [text]) else (entry.0 + [text], entry.1)]
  }

  lemma PushedSides(groups: Groups, home: GroupKey, text: string, added: bool)
    requires NoEmptyGroup(groups)
    ensures var next := PushText(groups, home, text, added);
            && NoEmptyGroup(next)
            && (forall key :: Side(next, key, added) == Side(groups, key, added) + if key == home then [text] else [])
            && (forall key, side :: side != added ==> Side(next, key, side) == Side(groups, key, side))
  {
  }

  lemma OneMoreFiled(groups: Groups, after: Groups, surface: Surface, copies: seq<Copy>, copy: Copy,
                     own: map<string, string>, others: map<string, string>, added: bool)
    requires Filed(groups, after, surface, copies, own, others, added)
    ensures Filed(groups, PushText(after, KeyOf(surface, copy.row, own, others), copy.text, added),
                  surface, copies + [copy], own, others, added)
  {
    var home := KeyOf(surface, copy.row, own, others);
    var next := PushText(after, home, copy.text, added);
    hide PushText, Side, NoEmptyGroup, KeyOf, Keyed, Occurrences;
    PushedSides(after, home, copy.text, added);
    forall key, t
      ensures Occurrences(Side(next, key, added), t)
              == Occurrences(Side(groups, key, added), t) + Keyed(surface, copies + [copy], own, others, key, t)
    {
      KeyedOneMore(surface, copies, copy, own, others, key, t);
      PushedCount(Side(after, key, added), Side(next, key, added), key == home, copy.text, t);
    }
  }

  lemma KeyedOneMore(surface: Surface, copies: seq<Copy>, copy: Copy, own: map<string, string>,
                     others: map<string, string>, key: GroupKey, t: string)
    ensures Keyed(surface, copies + [copy], own, others, key, t)
            == Keyed(surface, copies, own, others, key, t)
               + if copy.text == t && KeyOf(surface, copy.row, own, others) == key then 1 else 0
  {
    assert (copies + [copy])[..|copies|] == copies;
  }

  lemma PushedCount(s: seq<string>, next: seq<string>, pushed: bool, text: string, t: string)
    requires next == s + if pushed then [text] else []
    ensures Occurrences(next, t) == Occurrences(s, t) + if pushed && text == t then 1 else 0
  {
  }

  method FileUnder(groups: Groups, surface: Surface, copies: seq<Copy>, own: map<string, string>,
                   others: map<string, string>, added: bool)
    returns (after: Groups)
    requires NoEmptyGroup(groups)
    ensures Filed(groups, after, surface, copies, own, others, added)
  {
    hide Filed, NoEmptyGroup, KeyOf;
    after := groups;
    NothingFiled(groups, surface, own, others, added);
    for i := 0 to |copies|
      invariant Filed(groups, after, surface, copies[..i], own, others, added)
    {
      OneMoreFiled(groups, after, surface, copies[..i], copies[i], own, others, added);
      assert copies[..i] + [copies[i]] == copies[..i + 1];
      after := PushText(after, KeyOf(surface, copies[i].row, own, others), copies[i].text, added);
    }
    assert copies[..|copies|] == copies;
  }

  lemma NothingFiled(groups: Groups, surface: Surface, own: map<string, string>, others: map<string, string>,
                     added: bool)
    requires NoEmptyGroup(groups)
    ensures Filed(groups, groups, surface, [], own, others, added)
  {
  }

  /** All copies of one text have one row, so they are filed under one key. */
  lemma {:induction false} KeyedByRow(surface: Surface, copies: seq<Copy>, own: map<string, string>,
                                      others: map<string, string>, key: GroupKey, t: string, row: Row)
    requires forall k :: 0 <= k < |copies| && copies[k].text == t ==> copies[k].row == row
    ensures Keyed(surface, copies, own, others, key, t)
            == if KeyOf(surface, row, own, others) == key then Listed(copies, t) else 0
  {
    if copies != [] {
      KeyedByRow(surface, copies[..|copies| - 1], own, others, key, t, row);
    }
  }

  /** Filing the surplus puts the expected copies under each key of the surface. */
  lemma KeyedIsExpected(json: Row -> string, surface: Surface, from: Graph, other: Graph, copies: seq<Copy>,
                        key: GroupKey, t: string)
    requires Injective(json, AllRows(from, other)) && ListsSurplus(json, surface, from, other, copies)
    ensures Keyed(surface, copies, NodeLanguages(from.nodes), NodeLanguages(other.nodes), key, t)
            == if key.surface == surface then Expected(json, key, from, other, t) else 0
  {
    var own, others := NodeLanguages(from.nodes), NodeLanguages(other.nodes);
    if k :| 0 <= k < |copies| && copies[k].text == t {
      var row := copies[k].row;
      KeepsSurface(surface, row, own, others);
      hide Keyed, Listed, Surplus, NodeLanguages, AllRows, Injective, ReportedUnder, KeyOf, Rows;
      SameTextSameRow(json, surface, from, other, copies, k);
      KeyedByRow(surface, copies, own, others, key, t, row);
      if key.surface == surface {
        OneRowPerText(json, key, from, other, row);
      }
    } else {
      NotListed(surface, copies, own, others, key, t);
    }
  }

  lemma SameTextSameRow(json: Row -> string, surface: Surface, from: Graph, other: Graph, copies: seq<Copy>, k: nat)
    requires Injective(json, AllRows(from, other)) && ListsSurplus(json, surface, from, other, copies)
    requires k < |copies|
    ensures copies[k].row in Rows(surface, from) && json(copies[k].row) == copies[k].text
    ensures forall j :: 0 <= j < |copies| && copies[j].text == copies[k].text ==> copies[j].row == copies[k].row
  {
    RowsAreAmong(from, other, surface);
    hide AllRows, Rows, Listed, Surplus;
  }

  lemma {:induction false} NotListed(surface: Surface, copies: seq<Copy>, own: map<string, string>,
                                     others: map<string, string>, key: GroupKey, t: string)
    requires forall k :: 0 <= k < |copies| ==> copies[k].text != t
    ensures Listed(copies, t) == 0 && Keyed(surface, copies, own, others, key, t) == 0
  {
    if copies != [] {
      NotListed(surface, copies[..|copies| - 1], own, others, key, t);
    }
  }

  // ----- The diff

  /** The first `done` surfaces are filed, both ways. */
  ghost predicate SurfacesFiled(json: Row -> string, left: Graph, right: Graph, groups: Groups, done: nat)
  {
    && (forall key, t :: Occurrences(Side(groups, key, false), t)
                         == if SurfaceRank(key.surface) < done then Expected(json, key, left, right, t) else 0)
    && (forall key, t :: Occurrences(Side(groups, key, true), t)
                         == if SurfaceRank(key.surface) < done then Expected(json, key, right, left, t) else 0)
    && NoEmptyGroup(groups)
  }

  lemma OneMoreSurface(json: Row -> string, left: Graph, right: Graph, groups: Groups, middle: Groups, after: Groups,
                       surface: Surface, removed: seq<Copy>, added: seq<Copy>)
    requires Injective(json, AllRows(left, right)) && SurfacesFiled(json, left, right, groups, SurfaceRank(surface))
    requires ListsSurplus(json, surface, left, right, removed) && ListsSurplus(json, surface, right, left, added)
    requires Filed(groups, middle, surface, removed, NodeLanguages(left.nodes), NodeLanguages(right.nodes), false)
    requires Filed(middle, after, surface, added, NodeLanguages(right.nodes), NodeLanguages(left.nodes), true)
    ensures SurfacesFiled(json, left, right, after, SurfaceRank(surface) + 1)
  {
    hide Injective, AllRows, Expected, Keyed, NoEmptyGroup, ListsSurplus, Side, SurfaceRank, Occurrences;
    forall key, t
      ensures Occurrences(Side(after, key, false), t)
              == if SurfaceRank(key.surface) < SurfaceRank(surface) + 1 then Expected(json, key, left, right, t) else 0
      ensures Occurrences(Side(after, key, true), t)
              == if SurfaceRank(key.surface) < SurfaceRank(surface) + 1 then Expected(json, key, right, left, t) else 0
    {
      AllRowsEitherWay(left, right);
      KeyedIsExpected(json, surface, left, right, removed, key, t);
      KeyedIsExpected(json, surface, right, left, added, key, t);
      SameRankSameSurface(key.surface, surface);
    }
  }

  lemma SameRankSameSurface(a: Surface, b: Surface)
    ensures SurfaceRank(a) == SurfaceRank(b) <==> a == b
  {
  }

  /** File the surplus of one surface, both ways. */
  method DiffSurface(json: Row -> string, left: Graph, right: Graph, surface: Surface, groups: Groups)
    returns (after: Groups)
    requires Injective(json, AllRows(left, right)) && SurfacesFiled(json, left, right, groups, SurfaceRank(surface))
    ensures SurfacesFiled(json, left, right, after, SurfaceRank(surface) + 1)
  {
    hide Injective, Filed, Counts, ListsSurplus, NoEmptyGroup, Listed, MultiplicityOf;
    var leftLanguages, rightLanguages := NodeLanguages(left.nodes), NodeLanguages(right.nodes);
    var leftRows := CountedRows(json, Rows(surface, left));
    var rightRows := CountedRows(json, Rows(surface, right));
    var removed := SurplusRows(leftRows, rightRows);
    SurplusIsListed(json, surface, left, right, leftRows, rightRows, removed);
    assert NoEmptyGroup(groups);
    var middle := FileUnder(groups, surface, removed, leftLanguages, rightLanguages, false);
    var added := SurplusRows(rightRows, leftRows);
    SurplusIsListed(json, surface, right, left, rightRows, leftRows, added);
    assert NoEmptyGroup(middle) by {
      FiledHasNoEmptyGroup(groups, middle, surface, removed, leftLanguages, rightLanguages, false);
    }
    after := FileUnder(middle, surface, added, rightLanguages, leftLanguages, true);
    OneMoreSurface(json, left, right, groups, middle, after, surface, removed, added);
  }

  lemma FiledHasNoEmptyGroup(groups: Groups, after: Groups, surface: Surface, copies: seq<Copy>,
                             own: map<string, string>, others: map<string, string>, added: bool)
    requires Filed(groups, after, surface, copies, own, others, added)
    ensures NoEmptyGroup(after)
  {
  }

  /** The diff of two graphs is the one diff its specification allows. */
  method DiffGraphs(json: Row -> string, left: Graph, right: Graph) returns (diff: Diff)
    requires Injective(json, AllRows(left, right))
    ensures IsDiff(json, left, right, diff)
  {
    hide Injective, IsDiff, SurfacesFiled;
    var groups: Groups := map[];
    NoSurfaceFiled(json, left, right);
    for i := 0 to |ALL|
      invariant SurfacesFiled(json, left, right, groups, i)
    {
      assert SurfaceRank(ALL[i]) == i;
      groups := DiffSurface(json, left, right, ALL[i], groups);
    }
    KeyLeIsTotalOrder();
    var order := InOrder(groups.Keys, KeyLe);
    var list := SortedGroups(groups, order);
    AllFiledIsDiff(json, left, right, groups, order, list);
    var schema := None;
    if left.schema != right.schema {
      var removed := LineDiff.UnmatchedLines(left.schema, right.schema);
      var added := LineDiff.UnmatchedLines(right.schema, left.schema);
      schema := Some(SchemaDiff(removed, added));
    }
    diff := Diff(list, schema);
  }

  lemma NoSurfaceFiled(json: Row -> string, left: Graph, right: Graph)
    ensures SurfacesFiled(json, left, right, map[], 0)
  {
  }

  method SortedGroups(groups: Groups, order: seq<GroupKey>) returns (list: seq<GroupDiff>)
    requires forall key :: key in order <==> key in groups
    ensures |list| == |order|
    ensures forall k :: 0 <= k < |order| ==>
        list[k] == GroupDiff(order[k], Sort(groups[order[k]].0, StringLe), Sort(groups[order[k]].1, StringLe))
  {
    list := [];
    for i := 0 to |order|
      invariant |list| == i
      invariant forall k :: 0 <= k < i ==>
          list[k] == GroupDiff(order[k], Sort(groups[order[k]].0, StringLe), Sort(groups[order[k]].1, StringLe))
    {
      var (removed, added) := groups[order[i]];
      list := list + [GroupDiff(order[i], Sort(removed, StringLe), Sort(added, StringLe))];
    }
  }

  lemma AllFiledIsDiff(json: Row -> string, left: Graph, right: Graph, groups: Groups, order: seq<GroupKey>,
                       list: seq<GroupDiff>)
    requires SurfacesFiled(json, left, right, groups, 4)
    requires Ascending(order, KeyLe) && Distinct(order) && forall key :: key in order <==> key in groups
    requires |list| == |order| && forall k :: 0 <= k < |order| ==>
        list[k] == GroupDiff(order[k], Sort(groups[order[k]].0, StringLe), Sort(groups[order[k]].1, StringLe))
    ensures IsDiff(json, left, right, Diff(list, SchemaPart(left, right)))
  {
    assert Keys(list) == order;
    forall k | 0 <= k < |list|
      ensures IsGroup(json, left, right, list[k])
    {
      FiledIsGroup(json, left, right, groups, order[k]);
    }
    forall key | Needed(json, left, right, key)
      ensures key in Keys(list)
    {
      NeededIsFiled(json, left, right, groups, key);
    }
  }

  lemma SortedSide(side: seq<string>)
    ensures var sorted := Sort(side, StringLe);
            && Ascending(sorted, StringLe) && (sorted == [] <==> side == [])
            && forall t :: multiset(sorted)[t] == Occurrences(side, t)
  {
    StringLeIsTotalOrder();
    SortSorts(side, StringLe);
    hide Sort;
    assert |Sort(side, StringLe)| == |multiset(side)|;
  }

  lemma FiledIsGroup(json: Row -> string, left: Graph, right: Graph, groups: Groups, key: GroupKey)
    requires SurfacesFiled(json, left, right, groups, 4) && key in groups
    ensures IsGroup(json, left, right,
                    GroupDiff(key, Sort(groups[key].0, StringLe), Sort(groups[key].1, StringLe)))
  {
    hide Expected, Sort, Ascending, Occurrences;
    SortedSide(groups[key].0);
    SortedSide(groups[key].1);
    assert SurfaceRank(key.surface) < 4;
    assert Side(groups, key, false) == groups[key].0 && Side(groups, key, true) == groups[key].1;
  }

  lemma NeededIsFiled(json: Row -> string, left: Graph, right: Graph, groups: Groups, key: GroupKey)
    requires SurfacesFiled(json, left, right, groups, 4) && Needed(json, left, right, key)
    ensures key in groups
  {
    hide Expected;
    assert SurfaceRank(key.surface) < 4;
    var t :| Expected(json, key, left, right, t) > 0 || Expected(json, key, right, left, t) > 0;
    assert Occurrences(Side(groups, key, false), t) > 0 || Occurrences(Side(groups, key, true), t) > 0;
  }
}
