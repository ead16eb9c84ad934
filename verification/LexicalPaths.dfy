/**
 Lexical path normalisation on Unix component lists, as the index paths and the
 command line do it, and what a path means: an action on the current directory.
 */
module LexicalPaths {
  datatype Component = RootDir | CurDir | ParentDir | Normal(name: string)

  type Path = seq<Component>

  function Last<T>(s: seq<T>): T
    requires s != []
  {
    s[|s| - 1]
  }

  function Front<T>(s: seq<T>): seq<T>
    requires s != []
  {
    s[..|s| - 1]
  }

  /** `PathBuf::push`: an absolute component replaces the path. */
  function Push(path: Path, c: Component): Path
  {
    if c.RootDir? then [RootDir] else path + [c]
  }

  // ----- Normalisation

  function Fold(normal: Path, c: Component): Path
  {
    match c
    case CurDir => normal
    case ParentDir => if normal != [] && Last(normal).Normal? then Front(normal) else Push(normal, c)
    case _ => Push(normal, c)
  }

  function Normalize(path: Path): Path
  {
    if path == [] then [] else Fold(Normalize(Front(path)), Last(path))
  }

  /** The twin on the command line never leaves a path empty. */
  function NormalizeCli(path: Path): Path
  {
    if Normalize(path) == [] then [CurDir] else Normalize(path)
  }

  method LexicalNormalize(path: Path) returns (normal: Path)
    ensures normal == Normalize(path)
  {
    normal := [];
    for i := 0 to |path|
      invariant normal == Normalize(path[..i])
    {
      assert Front(path[..i + 1]) == path[..i] && Last(path[..i + 1]) == path[i];
      match path[i] {
        case CurDir =>
        case ParentDir =>
          if normal != [] && Last(normal).Normal? {
            normal := Front(normal);
          } else {
            normal := Push(normal, path[i]);
          }
        case _ =>
          normal := Push(normal, path[i]);
      }
    }
    assert path[..|path|] == path;
  }

  method NormalizeLexical(path: Path) returns (normal: Path)
    ensures normal == NormalizeCli(path)
  {
    normal := LexicalNormalize(path);
    if normal == [] {
      normal := Push(normal, CurDir);
    }
  }

  // ----- What a path means

  /** One component acts on the stack of directory names; `..` stays put at the root. */
  function Act(c: Component, dir: seq<string>): seq<string>
  {
    match c
    case RootDir => []
    case CurDir => dir
    case ParentDir => if dir == [] then [] else Front(dir)
    case Normal(name) => dir + [name]
  }

  function Follow(path: Path, dir: seq<string>): seq<string>
  {
    if path == [] then dir else Act(Last(path), Follow(Front(path), dir))
  }

  ghost predicate SameMeaning(a: Path, b: Path)
  {
    forall dir :: Follow(a, dir) == Follow(b, dir)
  }

  // ----- Normal forms

  /** Optionally the root, then how far up, then the names down. */
  datatype Form = Form(absolute: bool, ups: nat, names: seq<string>)

  function FoldForm(f: Form, c: Component): Form
  {
    match c
    case RootDir => Form(true, 0, [])
    case CurDir => f
    case ParentDir => if f.names != [] then f.(names := Front(f.names)) else f.(ups := f.ups + 1)
    case Normal(name) => f.(names := f.names + [name])
  }

  function FormOf(path: Path): Form
  {
    if path == [] then Form(false, 0, []) else FoldForm(FormOf(Front(path)), Last(path))
  }

  function Parents(n: nat): Path
  {
    if n == 0 then [] else Parents(n - 1) + [ParentDir]
  }

  function Names(names: seq<string>): Path
  {
    if names == [] then [] else Names(Front(names)) + [Normal(Last(names))]
  }

  function Render(f: Form): Path
  {
    (if f.absolute then [RootDir] else []) + Parents(f.ups) + Names(f.names)
  }

  lemma RenderedUp(f: Form)
    requires f.names == []
    ensures Render(f.(ups := f.ups + 1)) == Render(f) + [ParentDir]
  {
  }

  lemma RenderedRoot()
    ensures Render(Form(true, 0, [])) == [RootDir]
  {
  }

  lemma RenderedDown(f: Form, name: string)
    ensures Render(f.(names := f.names + [name])) == Render(f) + [Normal(name)]
  {
    hide Parents;
    assert Front(f.names + [name]) == f.names;
  }

  lemma RenderedBack(f: Form)
    requires f.names != []
    ensures Render(f) != [] && Front(Render(f)) == Render(f.(names := Front(f.names)))
  {
    RenderedDown(f.(names := Front(f.names)), Last(f.names));
    hide Render;
    assert f.names == Front(f.names) + [Last(f.names)];
  }

  lemma FoldRenders(f: Form, c: Component)
    ensures Fold(Render(f), c) == Render(FoldForm(f, c))
  {
    hide Render;
    RenderedEnd(f);
    match c
    case Normal(name) => RenderedDown(f, name);
    case ParentDir =>
      if f.names == [] {
        RenderedUp(f);
      } else {
        RenderedBack(f);
      }
    case RootDir => RenderedRoot();
    case CurDir =>
  }

  lemma {:induction false} NormalizeRenders(path: Path)
    ensures Normalize(path) == Render(FormOf(path))
  {
    if path != [] {
      hide Fold, FoldForm, Render;
      NormalizeRenders(Front(path));
      FoldRenders(FormOf(Front(path)), Last(path));
    }
  }

  lemma RenderedEnd(f: Form)
    ensures f.names == [] ==> Render(f) == [] || !Last(Render(f)).Normal?
    ensures f.names != [] ==> Render(f) != [] && Last(Render(f)) == Normal(Last(f.names))
  {
    if f.names == [] && f.ups > 0 {
      assert Last(Parents(f.ups)) == ParentDir;
    }
  }

  /** The stack with its `n` innermost names gone. */
  function Up(dir: seq<string>, n: nat): seq<string>
  {
    if n >= |dir| then [] else dir[..|dir| - n]
  }

  function Meaning(f: Form, dir: seq<string>): seq<string>
  {
    (if f.absolute then [] else Up(dir, f.ups)) + f.names
  }

  lemma ActMeans(f: Form, c: Component, dir: seq<string>)
    ensures Act(c, Meaning(f, dir)) == Meaning(FoldForm(f, c), dir)
  {
    var base: seq<string> := if f.absolute then [] else Up(dir, f.ups);
    match c
    case ParentDir =>
      if f.names != [] {
        assert Front(base + f.names) == base + Front(f.names);
      } else {
        assert base + [] == base;
      }
    case Normal(name) =>
      assert (base + f.names) + [name] == base + (f.names + [name]);
    case _ =>
  }

  lemma {:induction false} FollowMeans(path: Path, dir: seq<string>)
    ensures Follow(path, dir) == Meaning(FormOf(path), dir)
  {
    if path != [] {
      FollowMeans(Front(path), dir);
      var f := FormOf(Front(path));
      ActMeans(f, Last(path), dir);
    } else {
      assert Up(dir, 0) + [] == dir;
    }
  }

  lemma {:induction false} FormOfParents(absolute: bool, n: nat)
    ensures FormOf((if absolute then [RootDir] else []) + Parents(n)) == Form(absolute, n, [])
  {
    var root: Path := if absolute then [RootDir] else [];
    if n == 0 {
      assert root + Parents(0) == root;
      if absolute {
        assert Front([RootDir]) == [];
      }
    } else {
      FormOfParents(absolute, n - 1);
      var path := root + Parents(n);
      assert Front(path) == root + Parents(n - 1) && Last(path) == ParentDir;
    }
  }

  lemma {:induction false} FormOfRendered(f: Form)
    ensures FormOf(Render(f)) == f
    decreases |f.names|
  {
    var start: Path := (if f.absolute then [RootDir] else []) + Parents(f.ups);
    if f.names == [] {
      assert Render(f) == start;
      FormOfParents(f.absolute, f.ups);
    } else {
      var shorter := f.(names := Front(f.names));
      FormOfRendered(shorter);
      assert Front(Render(f)) == Render(shorter) && Last(Render(f)) == Normal(Last(f.names));
      assert Front(f.names) + [Last(f.names)] == f.names;
    }
  }

  // ----- The theorems

  /** The normalised path acts like the original on every starting directory, for both twins. */
  lemma {:induction false} NormalizeKeepsMeaning(path: Path)
    ensures SameMeaning(Normalize(path), path) && SameMeaning(NormalizeCli(path), path)
  {
    NormalizeRenders(path);
    FormOfRendered(FormOf(path));
    forall dir
      ensures Follow(Normalize(path), dir) == Follow(path, dir) == Follow(NormalizeCli(path), dir)
    {
      FollowMeans(path, dir);
      FollowMeans(Normalize(path), dir);
      assert Front([CurDir]) == [];
      assert Follow([CurDir], dir) == dir == Follow([], dir);
    }
  }

  /** No `.` is left, and no `..` or root comes after a name. */
  lemma {:induction false} NormalShape(path: Path)
    ensures CurDir !in Normalize(path)
    ensures forall i, j :: 0 <= i < j < |Normalize(path)| && Normalize(path)[i].Normal? ==> Normalize(path)[j].Normal?
    ensures forall j :: 0 < j < |Normalize(path)| ==> Normalize(path)[j] != RootDir
    ensures CurDir in NormalizeCli(path) <==> NormalizeCli(path) == [CurDir]
    ensures NormalizeCli(path) == [CurDir] <==> Normalize(path) == []
  {
    hide Parents, Names, FormOf, Normalize;
    NormalizeRenders(path);
    var f := FormOf(path);
    PartShapes(f.ups, f.names);
  }

  lemma {:induction false} PartShapes(n: nat, names: seq<string>)
    ensures |Parents(n)| == n && forall k :: 0 <= k < n ==> Parents(n)[k] == ParentDir
    ensures |Names(names)| == |names| && forall k :: 0 <= k < |names| ==> Names(names)[k] == Normal(names[k])
    decreases n + |names|
  {
    if n > 0 {
      PartShapes(n - 1, names);
    } else if names != [] {
      PartShapes(n, Front(names));
    }
  }

  /** Normalising twice is normalising once, for both twins. */
  lemma NormalizeIsIdempotent(path: Path)
    ensures Normalize(Normalize(path)) == Normalize(path)
    ensures NormalizeCli(NormalizeCli(path)) == NormalizeCli(path)
  {
    NormalizeRenders(path);
    FormOfRendered(FormOf(path));
    NormalizeRenders(Normalize(path));
    assert Front([CurDir]) == [];
  }

  /** What the normal form of an absolute path keeps beyond its meaning: the `..` right after the root. */
  function DropRootParents(f: Form): Form
  {
    if f.absolute then f.(ups := 0) else f
  }

  /** Two paths mean the same exactly when their normal forms agree, `..` right after the root aside. */
  lemma SameMeaningIsSameForm(a: Path, b: Path)
    ensures SameMeaning(a, b) <==> DropRootParents(FormOf(a)) == DropRootParents(FormOf(b))
  {
    var f, g := FormOf(a), FormOf(b);
    forall dir
      ensures Follow(a, dir) == Meaning(f, dir) && Follow(b, dir) == Meaning(g, dir)
    {
      FollowMeans(a, dir);
      FollowMeans(b, dir);
    }
    if SameMeaning(a, b) {
      if f.absolute || (!g.absolute && f.ups >= g.ups) {
        assert forall dir :: Meaning(f, dir) == Follow(a, dir) == Follow(b, dir) == Meaning(g, dir);
        DeepStackTellsApart(f, g);
      } else {
        assert forall dir :: Meaning(g, dir) == Follow(b, dir) == Follow(a, dir) == Meaning(f, dir);
        DeepStackTellsApart(g, f);
      }
    }
  }

  /** Two paths normalise to the same path exactly when they mean the same and keep equally many leading `..`. */
  lemma SameNormalForm(a: Path, b: Path)
    ensures Normalize(a) == Normalize(b) <==> SameMeaning(a, b) && FormOf(a).ups == FormOf(b).ups
  {
    hide SameMeaning, Normalize, FormOf;
    SameMeaningIsSameForm(a, b);
    NormalizeRenders(a);
    NormalizeRenders(b);
    FormOfRendered(FormOf(a));
    FormOfRendered(FormOf(b));
  }

  /** How many leading `..` a normal form keeps. */
  lemma UpsAreLeadingParents(path: Path)
    ensures var n, start := FormOf(path).ups, if FormOf(path).absolute then 1 else 0;
            && start + n <= |Normalize(path)|
            && (forall k :: start <= k < start + n ==> Normalize(path)[k] == ParentDir)
            && (forall k :: start + n <= k < |Normalize(path)| ==> Normalize(path)[k].Normal?)
  {
    hide Parents, Names, FormOf, Normalize;
    NormalizeRenders(path);
    PartShapes(FormOf(path).ups, FormOf(path).names);
  }

  lemma DeepStackTellsApart(f: Form, g: Form)
    requires f.absolute || (!g.absolute && f.ups >= g.ups)
    requires forall dir :: Meaning(f, dir) == Meaning(g, dir)
    ensures DropRootParents(f) == DropRootParents(g)
  {
    // at the root only the names show; on a stack deeper than both climb, the length shows the climb
    assert Meaning(f, []) == f.names && Meaning(g, []) == g.names;
    var deep := seq(f.ups + g.ups + 1, i => "x");
    assert |Meaning(f, deep)| == |Meaning(g, deep)|;
  }

  /** Relative paths with the same action on every directory normalise to the same path. */
  lemma RelativeNormalFormIsCanonical(a: Path, b: Path)
    requires RootDir !in a && RootDir !in b && SameMeaning(a, b)
    ensures Normalize(a) == Normalize(b) && NormalizeCli(a) == NormalizeCli(b)
  {
    SameMeaningIsSameForm(a, b);
    RelativeForm(a);
    RelativeForm(b);
    NormalizeRenders(a);
    NormalizeRenders(b);
  }

  lemma {:induction false} RelativeForm(path: Path)
    requires RootDir !in path
    ensures !FormOf(path).absolute
  {
    if path != [] {
      RelativeForm(Front(path));
    }
  }

  /** For absolute paths that fails: `/..` means `/` but keeps its `..`. */
  lemma {:induction false} RootParentIsKept()
    ensures SameMeaning([RootDir, ParentDir], [RootDir])
    ensures Normalize([RootDir, ParentDir]) == [RootDir, ParentDir] != Normalize([RootDir])
  {
    assert Front([RootDir, ParentDir]) == [RootDir] && Front([RootDir]) == [];
    forall dir
      ensures Follow([RootDir, ParentDir], dir) == Follow([RootDir], dir)
    {
      assert Follow([RootDir], dir) == [];
    }
  }
}
