/**
 The path-segment test of the file classifier: an in-place scan that has to
 agree with splitting the path into its components.
 */
module FileClass {
  import opened Results
  import opened Bytes

  /** `str::split('/')`. */
  function Split(path: Text): (parts: seq<Text>)
    ensures parts != []
  {
    match Find(path, [SLASH])
    case None => [path]
    case Some(k) => [path[..k]] + Split(path[k + 1..])
  }

  function AllButLast<T>(s: seq<T>): seq<T>
    requires s != []
  {
    s[..|s| - 1]
  }

  function NonEmpty(parts: seq<Text>): seq<Text>
  {
    if parts == [] then []
    else (if parts[0] == [] then [] else [parts[0]]) + NonEmpty(parts[1..])
  }

  /** The position of the last slash. */
  function LastSlash(path: Text): (r: Option<nat>)
    ensures r.None? <==> SLASH !in path
    ensures r.Some? ==> r.value < |path| && path[r.value] == SLASH && SLASH !in path[r.value + 1..]
  {
    if path == [] then None
    else if path[|path| - 1] == SLASH then Some(|path| - 1)
    else
      assert path == path[..|path| - 1] + [path[|path| - 1]];
      LastSlash(path[..|path| - 1])
  }

  /** The directory segments: `rsplit_once('/')`, split the front, drop empty segments. */
  function Directories(path: Text): seq<Text>
  {
    match LastSlash(path)
    case None => NonEmpty(Split([]))
    case Some(k) => NonEmpty(Split(path[..k]))
  }

  /** Directories are the non-empty components of the path other than the last. */
  lemma DirectoriesAreComponents(path: Text)
    ensures Directories(path) == NonEmpty(AllButLast(Split(path)))
  {
    match LastSlash(path)
    case None =>
      NoSlashOneComponent(path);
      assert Split([]) == [[]];
      assert NonEmpty([[]]) == [] + NonEmpty([]);
    case Some(k) =>
      SplitAtLastSlash(path, k);
      assert AllButLast(Split(path[..k]) + [path[k + 1..]]) == Split(path[..k]);
  }

  /** The directories are all the components but the last exactly when none of these is empty. */
  lemma DirectoriesAreAllComponents(path: Text)
    ensures Directories(path) == AllButLast(Split(path)) <==> [] !in AllButLast(Split(path))
  {
    DirectoriesAreComponents(path);
    NonEmptyIsAll(AllButLast(Split(path)));
  }

  lemma {:induction false} NonEmptyIsAll(parts: seq<Text>)
    ensures |NonEmpty(parts)| <= |parts| && (NonEmpty(parts) == parts <==> [] !in parts)
  {
    if parts != [] {
      NonEmptyIsAll(parts[1..]);
      assert parts == [parts[0]] + parts[1..];
    }
  }

  /** A doubled slash makes an empty component, which is no directory. */
  lemma DoubledSlashIsDropped()
    ensures AllButLast(Split("a//b/c")) == ["a", "", "b"] && Directories("a//b/c") == ["a", "b"]
  {
    hide Split, Directories;
    SplitAtFirstSlash("a//b/c", 1);
    SplitAtFirstSlash("/b/c", 0);
    SplitAtFirstSlash("b/c", 1);
    NoSlashOneComponent("c");
    assert "a//b/c"[..1] == "a" && "a//b/c"[2..] == "/b/c";
    assert "/b/c"[..0] == "" && "/b/c"[1..] == "b/c";
    assert "b/c"[..1] == "b" && "b/c"[2..] == "c";
    DirectoriesAreComponents("a//b/c");
    assert ["a", "", "b"][1..] == ["", "b"] && ["", "b"][1..] == ["b"];
  }

  lemma NoSlashOneComponent(path: Text)
    requires SLASH !in path
    ensures Split(path) == [path]
  {
    forall k | 0 <= k < |path|
      ensures !OccursAt(path, [SLASH], k)
    {
      assert path[k..k + 1][0] == path[k];
    }
  }

  lemma SplitAtFirstSlash(path: Text, first: nat)
    requires first < |path| && path[first] == SLASH && forall j :: 0 <= j < first ==> path[j] != SLASH
    ensures Split(path) == [path[..first]] + Split(path[first + 1..])
  {
    FirstSlash(path, first);
  }

  lemma {:induction false} SplitAtLastSlash(path: Text, k: nat)
    requires k < |path| && path[k] == SLASH && SLASH !in path[k + 1..]
    ensures Split(path) == Split(path[..k]) + [path[k + 1..]]
    decreases |path|
  {
    hide Split, OccursAt, Contains;
    FirstSlash(path, k);
    var first := Find(path, [SLASH]).value;
    var front, rest := path[..k], path[first + 1..];
    SplitAtFirstSlash(path, first);
    if first == k {
      NoSlashOneComponent(rest);
      NoSlashOneComponent(front);
    } else {
      var j := k - first - 1;
      assert rest[j + 1..] == path[k + 1..] && rest[..j] == front[first + 1..];
      SplitAtLastSlash(rest, j);
      assert front[..first] == path[..first];
      SplitAtFirstSlash(front, first);
    }
  }

  /** The first slash lies at or before any slash, and no byte before it is one. */
  lemma FirstSlash(path: Text, k: nat)
    requires k < |path| && path[k] == SLASH
    ensures Find(path, [SLASH]).Some?
    ensures var first := Find(path, [SLASH]).value;
            first <= k && path[first] == SLASH && forall j :: 0 <= j < first ==> path[j] != SLASH
  {
    assert OccursAt(path, [SLASH], k);
    var first := Find(path, [SLASH]).value;
    assert path[first] == path[first..first + 1][0];
    forall j | 0 <= j < first
      ensures path[j] != SLASH
    {
      assert path[j] == SLASH ==> OccursAt(path, [SLASH], j);
    }
  }

  /** `segment` sits at `i` between a slash or the start and a slash. */
  predicate SegmentAt(path: Text, segment: Text, i: int)
  {
    && OccursAt(path, segment, i)
    && (i == 0 || path[i - 1] == SLASH)
    && i + |segment| < |path| && path[i + |segment|] == SLASH
  }

  /** `segment` sits somewhere, between a slash or the start and a slash. */
  ghost predicate HasSegment(path: Text, segment: Text)
  {
    exists i :: SegmentAt(path, segment, i)
  }

  lemma {:induction false} SegmentIsComponent(path: Text, segment: Text)
    requires segment != [] && SLASH !in segment
    ensures HasSegment(path, segment) <==> segment in AllButLast(Split(path))
    decreases |path|
  {
    if SLASH !in path {
      NoSlashOneComponent(path);
    } else {
      var k :| 0 <= k < |path| && path[k] == SLASH;
      FirstSlash(path, k);
      var first := Find(path, [SLASH]).value;
      var rest := path[first + 1..];
      SegmentIsComponent(rest, segment);
      assert AllButLast(Split(path)) == [path[..first]] + AllButLast(Split(rest));
      FirstOrLater(path, segment, first);
    }
  }

  /** A segment is the component before the first slash, or lies after that slash. */
  lemma FirstOrLater(path: Text, segment: Text, first: nat)
    requires segment != [] && SLASH !in segment
    requires first < |path| && path[first] == SLASH && forall j :: 0 <= j < first ==> path[j] != SLASH
    ensures HasSegment(path, segment) <==> segment == path[..first] || HasSegment(path[first + 1..], segment)
  {
    hide SegmentAt;
    SegmentAtStart(path, segment, first);
    if i :| SegmentAt(path, segment, i) && i != 0 {
      SegmentStartsLater(path, segment, first, i);
      SegmentAfterSlash(path, segment, first, i - first - 1);
    }
    if HasSegment(path[first + 1..], segment) {
      var i :| SegmentAt(path[first + 1..], segment, i);
      SegmentStartsLater(path[first + 1..], segment, 0, i);
      SegmentAfterSlash(path, segment, first, i);
    }
  }

  lemma SegmentAtStart(path: Text, segment: Text, first: nat)
    requires SLASH !in segment
    requires first < |path| && path[first] == SLASH && forall j :: 0 <= j < first ==> path[j] != SLASH
    ensures SegmentAt(path, segment, 0) <==> segment == path[..first]
  {
    if SegmentAt(path, segment, 0) {
      assert forall k :: 0 <= k < |segment| ==> segment[k] == path[k];
    }
  }

  /** No segment starts before the text, nor, past its start, before its first slash. */
  lemma SegmentStartsLater(path: Text, segment: Text, first: nat, i: int)
    requires SegmentAt(path, segment, i)
    ensures 0 <= i
    ensures i != 0 && (forall j :: 0 <= j < first && j < |path| ==> path[j] != SLASH) ==> first < i
  {
  }

  lemma SegmentAfterSlash(path: Text, segment: Text, slash: nat, i: nat)
    requires slash < |path| && path[slash] == SLASH
    ensures SegmentAt(path[slash + 1..], segment, i) <==> SegmentAt(path, segment, i + slash + 1)
  {
    OccursInSuffix(path, segment, slash + 1, i);
  }

  /** What the scan knows when it resumes at `from`: no earlier position holds the segment. */
  ghost predicate NoneBefore(path: Text, segment: Text, from: nat)
  {
    forall i :: SegmentAt(path, segment, i) ==> from <= i
  }

  /** One hit of the scan that is not a whole segment: the scan may resume right after its first byte. */
  lemma ScanStep(path: Text, segment: Text, from: nat, rel: nat)
    requires IsStr(path) && segment != [] && segment[0] as int < 128
    requires from <= |path| && Find(path[from..], segment) == Some(rel) && NoneBefore(path, segment, from)
    ensures OccursAt(path, segment, from + rel) && IsCharBoundary(path, from + rel + 1)
    ensures !SegmentAt(path, segment, from + rel) ==> NoneBefore(path, segment, from + rel + 1)
  {
    hide IsStr, IsCharBoundary, Find, Contains;
    OccursInSuffix(path, segment, from, rel);
    BoundaryAroundAscii(path, from + rel);
    hide OccursAt;
    forall i | SegmentAt(path, segment, i)
      ensures from + rel <= i
    {
      OccursInSuffix(path, segment, from, i - from);
    }
  }

  /** Where an occurrence is rejected, the scan may resume one byte on exactly when the segment's first
      byte is ASCII; after any other first byte the slice it takes next would panic. */
  lemma ResumesAtBoundary(path: Text, segment: Text, at: nat)
    requires IsStr(path) && IsStr(segment) && segment != [] && OccursAt(path, segment, at)
    ensures IsCharBoundary(path, at + 1) <==> segment[0] as int < 128
  {
    if segment[0] as int < 128 {
      assert path[at] == segment[0];
      BoundaryAroundAscii(path, at);
    } else {
      assert path[at..at + |segment|][1] == path[at + 1] == segment[1];
    }
  }

  lemma ScanEnd(path: Text, segment: Text, from: nat)
    requires from <= |path| && Find(path[from..], segment) == None && NoneBefore(path, segment, from)
    ensures !exists i :: SegmentAt(path, segment, i)
  {
    forall i | SegmentAt(path, segment, i)
      ensures false
    {
      OccursInSuffix(path, segment, from, i - from);
    }
  }

  /** The forward scan finds the segment exactly when it is one of the path's directories.
      Every slice it takes starts at a character boundary: the byte it steps over is ASCII. */
  method ContainsPathSegment(path: Text, segment: Text) returns (found: bool)
    requires IsStr(path) && segment != [] && segment[0] as int < 128 && SLASH !in segment
    ensures found <==> segment in AllButLast(Split(path))
    ensures found <==> segment in Directories(path)
  {
    hide NoneBefore, Split, Directories, LastSlash, NonEmpty, IsStr, OccursAt, Contains, Find;
    SegmentIsComponent(path, segment);
    DirectoriesAreComponents(path);
    NonEmptyKeeps(AllButLast(Split(path)), segment);
    StartScan(path, segment);
    var from := 0;
    var hit := Find(SliceFrom(path, from), segment);
    while hit.Some?
      invariant from <= |path| && IsCharBoundary(path, from)
      invariant hit == Find(path[from..], segment)
      invariant NoneBefore(path, segment, from)
      decreases |path| - from
    {
      var start := from + hit.value;
      var end := start + |segment|;
      ScanStep(path, segment, from, hit.value);
      var startsSegment := start == 0 || path[start - 1] == SLASH;
      var endsSegment := end < |path| && path[end] == SLASH;
      if startsSegment && endsSegment {
        assert SegmentAt(path, segment, start);
        return true;
      }
      from := start + 1;
      hit := Find(SliceFrom(path, from), segment);
    }
    ScanEnd(path, segment, from);
    found := false;
  }

  lemma StartScan(path: Text, segment: Text)
    ensures NoneBefore(path, segment, 0)
  {
  }

  lemma {:induction false} NonEmptyKeeps(parts: seq<Text>, part: Text)
    requires part != []
    ensures part in NonEmpty(parts) <==> part in parts
    decreases parts
  {
    if parts != [] {
      NonEmptyKeeps(parts[1..], part);
      assert parts == [parts[0]] + parts[1..];
    }
  }
}
