/**
 Resolution of a project's index root: the directory-name override, the alias
 checks, and the physical normalisation that refuses symlinks, over a fixed
 Unix file-system tree.
 */
module IndexPaths {
  import opened Results
  import opened LexicalPaths

  // ----- The file-system tree

  datatype Kind = Directory | Regular | Link(target: Path)

  /** What lies at each location; a location is the names from the root down. */
  type Tree = map<seq<string>, Kind>

  /** The root is a directory, and everything lies in a directory. */
  ghost predicate IsTree(tree: Tree)
  {
    && [] in tree && tree[[]] == Directory
    && forall at :: at in tree && at != [] ==> Front(at) in tree && tree[Front(at)] == Directory
  }

  /** Path resolution from the directory `at`: links inside the path are followed, at most `hops`
      of them; a link at its end only if `follow` (`stat` follows, `lstat` does not). */
  function Walk(tree: Tree, at: seq<string>, rest: Path, hops: nat, follow: bool): Option<seq<string>>
    decreases hops, |rest|
  {
    if rest == [] then Some(at)
    else
      match rest[0]
      case RootDir => Walk(tree, [], rest[1..], hops, follow)
      case CurDir => Walk(tree, at, rest[1..], hops, follow)
      case ParentDir => Walk(tree, if at == [] then [] else Front(at), rest[1..], hops, follow)
      case Normal(name) =>
        var next := at + [name];
        if next !in tree then None
        else
          match tree[next]
          case Directory => Walk(tree, next, rest[1..], hops, follow)
          case Regular => if |rest| == 1 then Some(next) else None
          case Link(target) =>
            if |rest| == 1 && !follow then Some(next)
            else if hops == 0 then None
            else Walk(tree, at, target + rest[1..], hops - 1, follow)
  }

  /** The file system a resolution runs against: the tree and the kernel's limit on links followed. */
  datatype Disk = Disk(tree: Tree, hops: nat)
  {
    /** `symlink_metadata(path).is_ok()` for an absolute path. */
    predicate Exists(path: Path)
    {
      Walk(tree, [], path, hops, false).Some?
    }

    /** Whether the path exists and is a symlink. */
    predicate IsSymlink(path: Path)
    {
      match Walk(tree, [], path, hops, false)
      case None => false
      case Some(at) => at in tree && tree[at].Link?
    }

    function Canonicalize(path: Path): Option<Path>
    {
      match Walk(tree, [], path, hops, true)
      case None => None
      case Some(at) => Some(Absolute(at))
    }

    predicate IsDir(path: Path)
    {
      match Walk(tree, [], path, hops, true)
      case None => false
      case Some(at) => at in tree && tree[at] == Directory
    }
  }

  function Absolute(at: seq<string>): Path
  {
    [RootDir] + Names(at)
  }

  // ----- Walking where there are no links

  /** Every proper ancestor of `names` below the root is a directory. */
  ghost predicate DirectoriesDownTo(tree: Tree, names: seq<string>, i: nat)
    requires i <= |names|
  {
    forall j :: 0 < j <= i ==> names[..j] in tree && tree[names[..j]] == Directory
  }

  lemma {:induction false} WalkDown(tree: Tree, names: seq<string>, i: nat, tail: Path, hops: nat, follow: bool)
    requires i <= |names| && DirectoriesDownTo(tree, names, i)
    ensures Walk(tree, [], Absolute(names[..i]) + tail, hops, follow) == Walk(tree, names[..i], tail, hops, follow)
    decreases i
  {
    if i == 0 {
      assert Absolute(names[..0]) + tail == [RootDir] + tail;
    } else {
      var longer := [Normal(names[i - 1])] + tail;
      assert Front(names[..i]) == names[..i - 1] && Last(names[..i]) == names[i - 1];
      assert Absolute(names[..i]) + tail == Absolute(names[..i - 1]) + longer;
      WalkDown(tree, names, i - 1, longer, hops, follow);
      assert names[..i - 1] + [names[i - 1]] == names[..i];
      assert longer[1..] == tail;
    }
  }

  /** Something other than a link lies at `names`. */
  ghost predicate Physical(tree: Tree, names: seq<string>)
  {
    names in tree && !tree[names].Link?
  }

  lemma {:induction false} AncestorsAreDirectories(tree: Tree, names: seq<string>, j: nat)
    requires IsTree(tree) && names in tree && j < |names|
    ensures names[..j] in tree && tree[names[..j]] == Directory
    decreases |names| - j
  {
    if j + 1 == |names| {
      assert names[..j] == Front(names);
    } else {
      AncestorsAreDirectories(tree, names, j + 1);
      assert Front(names[..j + 1]) == names[..j];
    }
  }

  /** A physical location is reached by its own names, whether links would be followed or not. */
  lemma PhysicalWalks(tree: Tree, names: seq<string>, hops: nat, follow: bool)
    requires IsTree(tree) && Physical(tree, names)
    ensures Walk(tree, [], Absolute(names), hops, follow) == Some(names)
  {
    if names == [] {
      assert Absolute(names) == [RootDir];
    } else {
      var last := |names| - 1;
      forall j | 0 < j <= last
        ensures names[..j] in tree && tree[names[..j]] == Directory
      {
        AncestorsAreDirectories(tree, names, j);
      }
      WalkDown(tree, names, last, [Normal(names[last])], hops, follow);
      assert Absolute(names[..last]) + [Normal(names[last])] == Absolute(names);
      assert names[..last] + [names[last]] == names;
    }
  }

  /** Following every link ends at a physical location. */
  lemma {:induction false} WalkLands(tree: Tree, at: seq<string>, rest: Path, hops: nat)
    requires IsTree(tree) && at in tree && tree[at] == Directory
    requires Walk(tree, at, rest, hops, true).Some?
    ensures Physical(tree, Walk(tree, at, rest, hops, true).value)
    decreases hops, |rest|
  {
    if rest != [] {
      match rest[0]
      case RootDir => WalkLands(tree, [], rest[1..], hops);
      case CurDir => WalkLands(tree, at, rest[1..], hops);
      case ParentDir => WalkLands(tree, if at == [] then [] else Front(at), rest[1..], hops);
      case Normal(name) =>
        var next := at + [name];
        match tree[next]
        case Directory => WalkLands(tree, next, rest[1..], hops);
        case Regular =>
        case Link(target) => WalkLands(tree, at, target + rest[1..], hops - 1);
    }
  }

  /** `canonicalize` gives a path that exists, is its own canonical form, and has no link at its end. */
  lemma CanonicalIsPhysical(disk: Disk, path: Path)
    requires IsTree(disk.tree) && disk.Canonicalize(path).Some?
    ensures exists names :: disk.Canonicalize(path) == Some(Absolute(names)) && Physical(disk.tree, names)
    ensures disk.Canonicalize(disk.Canonicalize(path).value) == disk.Canonicalize(path)
  {
    WalkLands(disk.tree, [], path, disk.hops);
    var names := Walk(disk.tree, [], path, disk.hops, true).value;
    PhysicalWalks(disk.tree, names, disk.hops, true);
  }

  /** A path is a directory exactly if it resolves to one. */
  lemma IsDirMeans(disk: Disk, path: Path)
    ensures disk.IsDir(path) <==>
        exists at :: disk.Canonicalize(path) == Some(Absolute(at)) && at in disk.tree && disk.tree[at] == Directory
  {
    hide Walk, Names;
    if at :| disk.Canonicalize(path) == Some(Absolute(at)) && at in disk.tree && disk.tree[at] == Directory {
      SameLocation(Walk(disk.tree, [], path, disk.hops, true).value, at);
    }
  }

  lemma SameLocation(a: seq<string>, b: seq<string>)
    requires Absolute(a) == Absolute(b)
    ensures a == b
  {
    hide Names, Parents;
    PartShapes(0, a);
    PartShapes(0, b);
    assert Names(a) == Absolute(a)[1..] == Absolute(b)[1..] == Names(b);
    forall k | 0 <= k < |a|
      ensures a[k] == b[k]
    {
      assert Normal(a[k]) == Names(a)[k] == Names(b)[k] == Normal(b[k]);
    }
  }

  /** Below directories, a component that is neither missing nor a link nor a dead end is a directory. */
  lemma NextIsDirectory(disk: Disk, names: seq<string>, j: nat)
    requires 0 < j < |names| && disk.Exists(Absolute(names)) && !disk.IsSymlink(Absolute(names[..j]))
    requires DirectoriesDownTo(disk.tree, names, j - 1)
    ensures names[..j] in disk.tree && disk.tree[names[..j]] == Directory
  {
    hide Walk, Absolute, Names, DirectoriesDownTo;
    NamesParts(names, j - 1);
    var above, next, rest := names[..j - 1], Normal(names[j - 1]), Names(names)[j - 1..];
    WalkDown(disk.tree, names, j - 1, rest, disk.hops, false);
    OneMoreName(above, names[j - 1]);
    assert above + [names[j - 1]] == names[..j];
    WalkDown(disk.tree, names, j - 1, [next], disk.hops, false);
    StepIntoDirectory(disk, above, names[j - 1], rest);
  }

  /** A step that leads on, and that as a last step is no link, is into a directory. */
  lemma StepIntoDirectory(disk: Disk, above: seq<string>, name: string, rest: Path)
    requires |rest| > 1 && rest[0] == Normal(name)
    requires Walk(disk.tree, above, rest, disk.hops, false).Some?
    requires match Walk(disk.tree, above, [Normal(name)], disk.hops, false)
             case None => true
             case Some(at) => !(at in disk.tree && disk.tree[at].Link?)
    ensures above + [name] in disk.tree && disk.tree[above + [name]] == Directory
  {
  }

  /** A path that exists and has no symlink among its prefixes lies physically where it says. */
  lemma {:induction false} UnlinkedDirectories(disk: Disk, names: seq<string>, j: nat)
    requires j < |names| && disk.Exists(Absolute(names))
    requires forall k :: 0 < k <= |names| ==> !disk.IsSymlink(Absolute(names[..k]))
    ensures DirectoriesDownTo(disk.tree, names, j)
    decreases j
  {
    hide *;
    if j > 0 {
      UnlinkedDirectories(disk, names, j - 1);
      NextIsDirectory(disk, names, j);
      OneMoreDirectory(disk.tree, names, j);
    } else {
      NoDirectories(disk.tree, names);
    }
  }

  lemma OneMoreDirectory(tree: Tree, names: seq<string>, j: nat)
    requires 0 < j <= |names| && DirectoriesDownTo(tree, names, j - 1)
    requires names[..j] in tree && tree[names[..j]] == Directory
    ensures DirectoriesDownTo(tree, names, j)
  {
  }

  lemma NoDirectories(tree: Tree, names: seq<string>)
    ensures DirectoriesDownTo(tree, names, 0)
  {
  }

  /** A rendered path splits where its names split. */
  lemma NamesParts(names: seq<string>, i: nat)
    requires i < |names|
    ensures |Names(names)| == |names|
    ensures Names(names)[i] == Normal(names[i])
    ensures Absolute(names) == Absolute(names[..i]) + Names(names)[i..]
    ensures Absolute(names)[..i + 1] == Absolute(names[..i])
    ensures Absolute(names)[..i + 2] == Absolute(names[..i + 1])
  {
    hide Names, Parents;
    PartShapes(0, names);
    PartShapes(0, names[..i]);
    PartShapes(0, names[..i + 1]);
  }

  lemma UnlinkedIsPhysical(disk: Disk, names: seq<string>)
    requires IsTree(disk.tree) && disk.Exists(Absolute(names))
    requires forall k :: 0 < k <= |names| ==> !disk.IsSymlink(Absolute(names[..k]))
    ensures Physical(disk.tree, names)
  {
    hide Absolute, Names, DirectoriesDownTo, Walk;
    if names != [] {
      var last := |names| - 1;
      UnlinkedDirectories(disk, names, last);
      WalkDown(disk.tree, names, last, [Normal(names[last])], disk.hops, false);
      OneMoreName(names[..last], names[last]);
      assert names[..last] + [names[last]] == names && names[..|names|] == names;
      assert !disk.IsSymlink(Absolute(names[..|names|]));
      LastStepLands(disk, names[..last], names[last]);
    }
  }

  /** A last step that leads somewhere, and not to a link, lands physically. */
  lemma LastStepLands(disk: Disk, above: seq<string>, name: string)
    requires match Walk(disk.tree, above, [Normal(name)], disk.hops, false)
             case None => false
             case Some(at) => !(at in disk.tree && disk.tree[at].Link?)
    ensures Physical(disk.tree, above + [name])
  {
  }

  // ----- The operations

  datatype PathError =
    | ProjectInaccessible(path: Path)
    | UnsupportedFilesystem(path: Path)
    | CannotCanonicalize(path: Path)
    | RootAlias
    | SymlinkComponent(path: Path)

  /** `Path::parent`. */
  function Parent(path: Path): Option<Path>
  {
    if path == [] || Last(path) == RootDir then None else Some(Front(path))
  }

  /** Absolute, with the root nowhere else: what normalising an absolute path gives. */
  predicate IsRooted(path: Path)
  {
    path != [] && path[0] == RootDir && forall j :: 0 < j < |path| ==> path[j] != RootDir
  }

  lemma RootExists(disk: Disk)
    ensures disk.Exists([RootDir])
  {
    assert [RootDir][1..] == [];
  }

  /** The longest prefix of `path` that exists; the root always does. */
  method NearestExistingAncestor(disk: Disk, path: Path) returns (found: Option<Path>)
    requires IsRooted(path)
    ensures found.Some? && found.value <= path && found.value != [] && disk.Exists(found.value)
    ensures forall k :: |found.value| < k <= |path| ==> !disk.Exists(path[..k])
  {
    var current := Some(path);
    assert path[..|path|] == path && path[..1] == [RootDir];
    while current.Some?
      invariant current.Some? && current.value <= path && current.value != []
      invariant forall k :: |current.value| < k <= |path| ==> !disk.Exists(path[..k])
      decreases |current.value|
    {
      var candidate := current.value;
      assert candidate == path[..|candidate|];
      if disk.Exists(candidate) {
        return Some(candidate);
      }
      RootExists(disk);
      assert |candidate| > 1 && Last(candidate) == path[|candidate| - 1];
      current := Parent(candidate);
    }
    found := None;
  }

  /** Some existing component of `path` longer than its first `base` ones is a symlink. */
  ghost predicate LinkBeyond(disk: Disk, path: Path, base: nat)
  {
    exists k :: base < k <= |path| && disk.IsSymlink(path[..k])
  }

  /** `link` is the shortest such component. */
  ghost predicate FirstLink(disk: Disk, path: Path, base: nat, link: Path)
  {
    && base < |link| && link <= path && disk.IsSymlink(link)
    && forall k :: base < k < |link| ==> !disk.IsSymlink(path[..k])
  }

  /** Push the components of `path` from `base` on one by one, stopping at the first symlink. */
  method ProbeForLink(disk: Disk, path: Path, base: nat) returns (link: Option<Path>)
    requires IsRooted(path) && base <= |path|
    ensures link.Some? <==> LinkBeyond(disk, path, base)
    ensures link.Some? ==> FirstLink(disk, path, base, link.value)
  {
    var probe := path[..base];
    for i := base to |path|
      invariant probe == path[..i]
      invariant forall k :: base < k <= i ==> !disk.IsSymlink(path[..k])
    {
      probe := Push(probe, path[i]);
      assert probe == path[..i + 1];
      if disk.IsSymlink(probe) {
        return Some(probe);
      }
    }
    link := None;
  }

  /** How much of the target is trusted without probing: the project, if the target lies under it. */
  function Trusted(project: Path, target: Path): nat
  {
    if project <= target then |project| else 0
  }

  /** Physical normalisation of an index root. Over any tree and any canonical project, an absolute target is
      accepted exactly when its normal form is not the root and no existing component of it, below the project
      or anywhere, is a symlink; it is refused with the first symlink. It is accepted as its normal form, whose
      `..` right after the root, if it has any, go unless it lies under the project. `outside` tells whether it
      was probed as a target outside the project. */
  method PhysicalNormalize(disk: Disk, project: Path, target: Path)
    returns (r: Result<Path, PathError>, ghost outside: bool)
    requires target != [] && target[0] == RootDir
    ensures var path := Normalize(target);
            IsCanonicalCase(disk, project) ==>
              && (r.Ok? <==> |path| > 1 && !LinkBeyond(disk, path, Trusted(project, path)))
              && (r.Ok? ==> r.value == if project <= path then path else Absolute(FormOf(target).names))
              && (r.Err? ==> if |path| <= 1 then r.error == RootAlias
                             else r.error.SymlinkComponent?
                                  && FirstLink(disk, path, Trusted(project, path), r.error.path))
    ensures IsCanonicalCase(disk, project) ==>
        (outside <==> |Normalize(target)| > 1 && !(project <= Normalize(target)))
  {
    var path := LexicalNormalize(target);
    NormalizedIsRooted(target);
    outside := false;
    if Parent(path).None? {
      RootHasNoParent(path);
      return Err(RootAlias), outside;
    }
    var nearest := NearestExistingAncestor(disk, path);
    if nearest.None? {
      return Err(RootAlias), outside;
    }
    var existing := nearest.value;
    var remainder := path[|existing|..];
    assert existing + remainder == path;
    NoLinkPastExisting(disk, path, existing);
    if project <= existing {
      var link := ProbeForLink(disk, existing, |project|);
      LinksAreInExisting(disk, path, existing, |project|);
      return if link.Some? then Err(SymlinkComponent(link.value)) else Ok(existing + remainder), outside;
    }
    outside := true;
    if IsCanonicalCase(disk, project) {
      ProjectIsNotPast(disk, project, path, existing);
    }
    var link := ProbeForLink(disk, existing, 0);
    LinksAreInExisting(disk, path, existing, 0);
    if link.Some? {
      return Err(SymlinkComponent(link.value)), outside;
    }
    var base := disk.Canonicalize(existing);
    if IsCanonicalCase(disk, project) {
      UnlinkedIsCanonical(disk, target, existing);
    }
    r := if base.None? then Err(CannotCanonicalize(existing)) else Ok(base.value + remainder);
  }

  /** Normalising keeps an absolute path absolute. */
  lemma {:induction false} NormalizedIsRooted(target: Path)
    requires target != [] && target[0] == RootDir
    ensures IsRooted(Normalize(target))
  {
    NormalizeRenders(target);
    AbsoluteForm(target);
    NormalShape(target);
  }

  lemma {:induction false} AbsoluteForm(path: Path)
    requires path != [] && path[0] == RootDir
    ensures FormOf(path).absolute
  {
    if |path| == 1 {
      assert Front(path) == [];
    } else {
      AbsoluteForm(Front(path));
    }
  }

  /** A normal form without `..` is accepted as it is; only the root itself is `/`, but `/..` is accepted as `/`. */
  lemma AcceptedAs(target: Path)
    requires target != [] && target[0] == RootDir
    ensures ParentDir !in Normalize(target) <==> Absolute(FormOf(target).names) == Normalize(target)
    ensures Absolute(FormOf(target).names) == [RootDir] <==> !Last(Normalize(target)).Normal?
  {
    hide Names, Parents, FormOf, Normalize;
    NormalizedIsRooted(target);
    NormalizeRenders(target);
    AbsoluteForm(target);
    var f := FormOf(target);
    PartShapes(f.ups, f.names);
    RenderedEnd(f);
    assert f.ups == 0 ==> Render(f) == Absolute(f.names) by {
      assert f.ups == 0 ==> Parents(f.ups) == [];
    }
    assert f.ups > 0 ==> Render(f)[1] == ParentDir;
  }

  /** The input: `/..` is not the root by its components and holds no symlink, so it is accepted, as the root,
      for every project but `/`. */
  lemma RootParentPassesForRoot(disk: Disk, project: Path)
    requires IsCanonicalCase(disk, project)
    ensures var path := Normalize([RootDir, ParentDir]);
            && path == [RootDir, ParentDir] && |path| > 1 && !LinkBeyond(disk, path, Trusted(project, path))
            && Absolute(FormOf([RootDir, ParentDir]).names) == [RootDir]
            && (project <= path <==> project == [RootDir])
  {
    hide Normalize, FormOf, Absolute, Names, Physical, IsTree, Disk.IsSymlink;
    RootParentIsKept();
    AcceptedAs([RootDir, ParentDir]);
    RootIsNoLink(disk);
    var path := [RootDir, ParentDir];
    assert path[..0] == [] && path[..1] == [RootDir] && path[..2] == path;
    var names :| project == Absolute(names) && Physical(disk.tree, names);
    NotRootParent(names);
  }

  lemma RootIsNoLink(disk: Disk)
    requires IsTree(disk.tree)
    ensures !disk.IsSymlink([RootDir]) && !disk.IsSymlink([RootDir, ParentDir])
  {
    assert [RootDir][1..] == [] && [RootDir, ParentDir][1..] == [ParentDir] && [ParentDir][1..] == [];
    assert Walk(disk.tree, [], [RootDir], disk.hops, false) == Some([]);
    assert Walk(disk.tree, [], [ParentDir], disk.hops, false) == Walk(disk.tree, [], [], disk.hops, false) == Some([]);
    hide Walk;
  }

  lemma NotRootParent(names: seq<string>)
    ensures Absolute(names) <= [RootDir, ParentDir] <==> Absolute(names) == [RootDir]
  {
    if names != [] {
      NamesParts(names, 0);
      assert Absolute(names)[1] == Normal(names[0]);
    }
  }

  /** A well-formed tree and a canonical existing project. */
  ghost predicate IsCanonicalCase(disk: Disk, project: Path)
  {
    IsTree(disk.tree) && exists names :: project == Absolute(names) && Physical(disk.tree, names)
  }

  lemma RootHasNoParent(path: Path)
    requires IsRooted(path)
    ensures Parent(path).None? <==> |path| == 1
  {
  }

  lemma NoLinkPastExisting(disk: Disk, path: Path, existing: Path)
    requires existing <= path && forall k :: |existing| < k <= |path| ==> !disk.Exists(path[..k])
    ensures forall k :: |existing| < k <= |path| ==> !disk.IsSymlink(path[..k])
  {
    forall k | |existing| < k <= |path|
      ensures !disk.IsSymlink(path[..k])
    {
      assert !disk.Exists(path[..k]);
    }
  }

  lemma LinksAreInExisting(disk: Disk, path: Path, existing: Path, base: nat)
    requires existing <= path && forall k :: |existing| < k <= |path| ==> !disk.IsSymlink(path[..k])
    ensures LinkBeyond(disk, existing, base) <==> LinkBeyond(disk, path, base)
    ensures forall link :: FirstLink(disk, existing, base, link) ==> FirstLink(disk, path, base, link)
  {
    forall k | 0 <= k <= |existing|
      ensures existing[..k] == path[..k]
    {
    }
    if k :| base < k <= |existing| && disk.IsSymlink(existing[..k]) {
      assert disk.IsSymlink(path[..k]);
    }
    if k :| base < k <= |path| && disk.IsSymlink(path[..k]) {
      assert disk.IsSymlink(existing[..k]);
    }
  }

  /** An existing project that the target lies under is no longer than the target's existing part. */
  lemma ProjectIsNotPast(disk: Disk, project: Path, path: Path, existing: Path)
    requires IsCanonicalCase(disk, project) && existing <= path
    requires forall k :: |existing| < k <= |path| ==> !disk.Exists(path[..k])
    ensures project <= path ==> project <= existing
  {
    var names :| project == Absolute(names) && Physical(disk.tree, names);
    PhysicalWalks(disk.tree, names, disk.hops, false);
    if project <= path && |existing| < |project| {
      assert path[..|project|] == project;
      assert disk.Exists(path[..|project|]);
    }
  }

  /** `..` at the root stays at the root. */
  lemma {:induction false} ParentsStay(tree: Tree, ups: nat, tail: Path, hops: nat, follow: bool)
    ensures Walk(tree, [], [RootDir] + (Parents(ups) + tail), hops, follow)
            == Walk(tree, [], [RootDir] + tail, hops, follow)
  {
    if ups == 0 {
      assert Parents(0) + tail == tail;
    } else {
      var longer := [ParentDir] + tail;
      ParentsStay(tree, ups - 1, longer, hops, follow);
      assert Parents(ups) + tail == Parents(ups - 1) + longer;
      assert ([RootDir] + longer)[1..] == longer && ([RootDir] + tail)[1..] == tail && longer[1..] == tail;
    }
  }

  /** The first components of a rendered absolute form, and what they leave. */
  lemma PrefixOfRendered(ups: nat, names: seq<string>, n: nat)
    requires n <= |names|
    ensures var path := Render(Form(true, ups, names));
            && |path| == 1 + ups + |names|
            && path[..1 + ups + n] == [RootDir] + (Parents(ups) + Names(names[..n]))
            && Absolute(names[..n]) + path[1 + ups + n..] == Absolute(names)
  {
    hide Parents, Names;
    PartShapes(ups, names);
    PartShapes(ups, names[..n]);
  }

  /** The longest existing prefix of a target holds all its leading `..`. */
  lemma ExistingHoldsParents(disk: Disk, ups: nat, names: seq<string>, existing: Path)
    requires forall k :: |existing| < k <= |Render(Form(true, ups, names))| ==>
        !disk.Exists(Render(Form(true, ups, names))[..k])
    ensures 1 + ups <= |existing|
  {
    PrefixOfRendered(ups, names, 0);
    assert Names(names[..0]) == [];
    assert Parents(ups) + [] == Parents(ups);
    ParentsStay(disk.tree, ups, [], disk.hops, false);
    RootExists(disk);
    assert [RootDir] + [] == [RootDir];
    assert disk.Exists(Render(Form(true, ups, names))[..1 + ups]);
  }

  /** Canonicalising the existing part of a target without symlinks only drops the leading `..`. */
  lemma UnlinkedIsCanonical(disk: Disk, target: Path, existing: Path)
    requires IsTree(disk.tree) && target != [] && target[0] == RootDir
    requires existing <= Normalize(target) && disk.Exists(existing) && !LinkBeyond(disk, existing, 0)
    requires forall k :: |existing| < k <= |Normalize(target)| ==> !disk.Exists(Normalize(target)[..k])
    ensures disk.Canonicalize(existing).Some?
    ensures disk.Canonicalize(existing).value + Normalize(target)[|existing|..] == Absolute(FormOf(target).names)
  {
    hide FormOf, Normalize, Walk, Names, Parents, Render, Absolute, LinkBeyond, Disk.Exists, Disk.Canonicalize, IsTree;
    NormalizeRenders(target);
    AbsoluteForm(target);
    var f := FormOf(target);
    assert f == Form(true, f.ups, f.names);
    ExistingHoldsParents(disk, f.ups, f.names, existing);
    PrefixOfRendered(f.ups, f.names, |f.names|);
    var n := |existing| - 1 - f.ups;
    PrefixOfRendered(f.ups, f.names, n);
    assert existing == Normalize(target)[..|existing|];
    UnlinkedFormIsCanonical(disk, f.ups, f.names[..n], existing);
  }

  lemma UnlinkedFormIsCanonical(disk: Disk, ups: nat, names: seq<string>, existing: Path)
    requires IsTree(disk.tree) && disk.Exists(existing) && !LinkBeyond(disk, existing, 0)
    requires existing == [RootDir] + (Parents(ups) + Names(names))
    ensures disk.Canonicalize(existing) == Some(Absolute(names))
  {
    hide Walk, Names, Parents;
    PartShapes(ups, names);
    ParentsStay(disk.tree, ups, Names(names), disk.hops, false);
    ParentsStay(disk.tree, ups, Names(names), disk.hops, true);
    forall k | 0 < k <= |names|
      ensures !disk.IsSymlink(Absolute(names[..k]))
    {
      PartShapes(ups, names[..k]);
      ParentsStay(disk.tree, ups, Names(names[..k]), disk.hops, false);
      assert existing[..1 + ups + k] == [RootDir] + (Parents(ups) + Names(names[..k]));
      assert !disk.IsSymlink(existing[..1 + ups + k]);
    }
    UnlinkedIsPhysical(disk, names);
    PhysicalWalks(disk.tree, names, disk.hops, true);
  }

  // ----- The directory name and the whole resolution

  /** The components of a slash-free name. */
  function SegmentComponents(value: string): Path
    requires '/' !in value
  {
    if value == "" then []
    else if value == "." then [CurDir]
    else if value == ".." then [ParentDir]
    else [Normal(value)]
  }

  predicate HasDotDot(value: string)
  {
    exists i :: 0 <= i < |value| - 1 && value[i] == '.' && value[i + 1] == '.'
  }

  const DEFAULT_CURRENT_DIR := ".codegraph"
  const WSL_CURRENT_DIR := ".codegraph-wsl"

  /** The override, trimmed, if it is one plain directory name. */
  function ConfiguredDirectoryName(codegraphDir: Option<string>, trim: string -> string): Result<string, PathError>
  {
    match codegraphDir
    case None => Ok(DEFAULT_CURRENT_DIR)
    case Some(raw) =>
      var value := trim(raw);
      if value == "" || value == "." || HasDotDot(value) || '/' in value || '\\' in value
         || SegmentComponents(value) != [Normal(value)]
      then Err(RootAlias) else Ok(value)
  }

  /** An override is accepted exactly when, trimmed, it is not empty, not `.`, and holds no `..`, no slash and no
      backslash. */
  lemma ConfiguredNameIsOneComponent(raw: string, trim: string -> string)
    ensures var value := trim(raw); var r := ConfiguredDirectoryName(Some(raw), trim);
            && (r.Ok? <==> value != "" && value != "." && !HasDotDot(value) && '/' !in value && '\\' !in value)
            && (r.Ok? ==> r.value == value && SegmentComponents(value) == [Normal(value)])
  {
    if trim(raw) == ".." {
      assert trim(raw)[0] == '.' && trim(raw)[1] == '.';
    }
  }

  /** One plain component is refused for two dots inside it. */
  lemma DotsInsideAreRefused(trim: string -> string)
    requires trim("a..b") == "a..b"
    ensures SegmentComponents("a..b") == [Normal("a..b")]
    ensures ConfiguredDirectoryName(Some("a..b"), trim) == Err(RootAlias)
  {
    assert "a..b"[1] == '.' && "a..b"[2] == '.';
  }

  function DefaultDirectoryName(disk: Disk, project: Path, wslWindowsDrive: bool): string
  {
    if !wslWindowsDrive then DEFAULT_CURRENT_DIR
    else if disk.IsDir(project + [Normal(WSL_CURRENT_DIR)]) then WSL_CURRENT_DIR
    else if Walk(disk.tree, [], project + [Normal(DEFAULT_CURRENT_DIR), Normal("codegraph.db")], disk.hops, true).Some?
    then DEFAULT_CURRENT_DIR
    else WSL_CURRENT_DIR
  }

  /** What an index root must not be: the root of the file system, or anything the project lies under or is. */
  function RejectProjectAlias(project: Path, root: Path): Option<PathError>
  {
    if Parent(root).None? || root == project || root <= project then Some(RootAlias) else None
  }

  /** What decides a resolution once the project is canonical. */
  function DirectoryName(disk: Disk, project: Path, codegraphDir: Option<string>, trim: string -> string, wsl: bool)
    : Result<string, PathError>
  {
    if codegraphDir.None? then Ok(DefaultDirectoryName(disk, project, wsl))
    else ConfiguredDirectoryName(codegraphDir, trim)
  }

  /** The name of a project's index directory: the override, trimmed, unless it is empty, `.`, or holds a `..`, a
      slash or a backslash; without an override `.codegraph`, but on a WSL drive `.codegraph-wsl` if that is a
      directory already or `.codegraph` holds no database. */
  ghost function ChosenName(disk: Disk, project: Path, codegraphDir: Option<string>, trim: string -> string, wsl: bool)
    : Option<string>
  {
    match codegraphDir
    case Some(raw) =>
      var value := trim(raw);
      if value == "" || value == "." || '/' in value || '\\' in value
         || (exists before, after :: before + ".." + after == value)
      then None else Some(value)
    case None =>
      if wsl && (disk.IsDir(project + [Normal(".codegraph-wsl")])
                 || disk.Canonicalize(project + [Normal(".codegraph"), Normal("codegraph.db")]).None?)
      then Some(".codegraph-wsl") else Some(".codegraph")
  }

  lemma NameIsChosen(disk: Disk, project: Path, codegraphDir: Option<string>, trim: string -> string, wsl: bool)
    ensures DirectoryName(disk, project, codegraphDir, trim, wsl)
            == match ChosenName(disk, project, codegraphDir, trim, wsl)
               case None => Err(RootAlias)
               case Some(name) => Ok(name)
  {
    hide Walk;
    if codegraphDir.Some? {
      ConfiguredNameIsOneComponent(codegraphDir.value, trim);
      var value := trim(codegraphDir.value);
      DotDotSplits(value);
    }
  }

  lemma DotDotSplits(value: string)
    ensures HasDotDot(value) <==> exists before, after :: before + ".." + after == value
  {
    if HasDotDot(value) {
      var i :| 0 <= i < |value| - 1 && value[i] == '.' && value[i + 1] == '.';
      assert value[..i] + ".." + value[i + 2..] == value;
    }
    if before, after :| before + ".." + after == value {
      assert value[|before|] == '.' && value[|before| + 1] == '.';
    }
  }

  datatype Resolved = Resolved(project: Path, root: Path)

  /** Every successful resolution gives a root exactly one component under the canonical project, never by
      way of the outside-project branch; and resolution succeeds exactly when the project is accessible and
      identifiable, the name is acceptable, and the root is not an existing symlink. */
  method Resolve(disk: Disk, project: Path, codegraphDir: Option<string>, trim: string -> string,
                 hasIdentity: Path -> bool, onWslDrive: Path -> bool)
    returns (r: Result<Resolved, PathError>, ghost outside: bool)
    requires IsTree(disk.tree)
    ensures !outside
    ensures match disk.Canonicalize(project)
            case None => r == Err(ProjectInaccessible(project))
            case Some(canonical) =>
              var name := ChosenName(disk, canonical, codegraphDir, trim, onWslDrive(canonical));
              r == if !hasIdentity(canonical) then Err(UnsupportedFilesystem(canonical))
                   else if name.None? then Err(RootAlias)
                   else if disk.IsSymlink(canonical + [Normal(name.value)])
                   then Err(SymlinkComponent(canonical + [Normal(name.value)]))
                   else Ok(Resolved(canonical, canonical + [Normal(name.value)]))
  {
    outside := false;
    var found := disk.Canonicalize(project);
    if found.None? {
      return Err(ProjectInaccessible(project)), outside;
    }
    var canonical := found.value;
    CanonicalIsPhysical(disk, project);
    if !hasIdentity(canonical) {
      return Err(UnsupportedFilesystem(canonical)), outside;
    }
    var name := DirectoryName(disk, canonical, codegraphDir, trim, onWslDrive(canonical));
    NameIsChosen(disk, canonical, codegraphDir, trim, onWslDrive(canonical));
    if name.Err? {
      return Err(name.error), outside;
    }
    var candidate := LexicalNormalize(Push(canonical, Normal(name.value)));
    OneComponentBelow(disk, canonical, name.value);
    var alias := RejectProjectAlias(canonical, candidate);
    match alias {
      case Some(error) => return Err(error), outside;
      case None =>
    }
    var root;
    root, outside := PhysicalNormalize(disk, canonical, candidate);
    r := match root
      case Err(error) => Err(error)
      case Ok(path) => Ok(Resolved(canonical, path));
  }

  /** One name below a canonical project is its own normal form, aliases nothing, and only it needs probing. */
  lemma OneComponentBelow(disk: Disk, project: Path, name: string)
    requires IsTree(disk.tree) && exists names :: project == Absolute(names) && Physical(disk.tree, names)
    ensures var root := project + [Normal(name)];
            && Normalize(root) == root && root[0] == RootDir
            && RejectProjectAlias(project, root).None?
            && IsCanonicalCase(disk, project) && project <= root
            && (LinkBeyond(disk, root, Trusted(project, root)) <==> disk.IsSymlink(root))
            && (forall link :: FirstLink(disk, root, Trusted(project, root), link) ==> link == root)
  {
    hide IsTree, Physical, Normalize, Disk.IsSymlink;
    var root := project + [Normal(name)];
    var names :| project == Absolute(names) && Physical(disk.tree, names);
    OneMoreName(names, name);
    AbsoluteIsNormal(names + [name]);
    assert root[..|root|] == root;
    assert LinkBeyond(disk, root, |project|) ==> disk.IsSymlink(root[..|root|]);
  }

  lemma OneMoreName(names: seq<string>, name: string)
    ensures Absolute(names + [name]) == Absolute(names) + [Normal(name)]
  {
    assert Front(names + [name]) == names;
  }

  /** A path of the root and names is its own normal form. */
  lemma AbsoluteIsNormal(names: seq<string>)
    ensures Normalize(Absolute(names)) == Absolute(names)
  {
    var f := Form(true, 0, names);
    assert Render(f) == Absolute(names);
    FormOfRendered(f);
    NormalizeRenders(Absolute(names));
  }
}
