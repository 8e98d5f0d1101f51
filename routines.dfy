/** Library discovery and the checkpoint routine (codesave/routines.py): which
    entries of a directory are libraries, how the libraries of several roots
    are merged, and what is handed to `create_zip`. */
module Routines {
  import opened Wrappers
  import opened Strings
  import opened Collections
  import opened Dicts
  import opened FileTree

  /** The failed assertions of the routines. */
  datatype RoutineError =
    | NotADirectory(path: string)      // `assert pythonpath.is_dir()`
    | OutputNameMissing                // `assert output_zipname is not None`
    | ExtraLibrariesNotImplemented     // `assert len(extra_libraries) == 0`

  /** `Path(name).suffix == ".py"`: the last dot starts `.py` and is not the
      leading dot of a hidden name, so `.py` itself has no suffix. */
  predicate PySuffix(name: string) {
    |name| >= 4 && EndsWith(name, ".py")
  }

  /** `Path(name).stem` for a name with suffix `.py`. */
  function Stem(name: string): (stem: string)
    requires PySuffix(name)
    ensures |stem| > 0 && stem + ".py" == name
  {
    name[..|name| - 3]
  }

  /** A name the `*.py` component of a glob pattern matches. */
  predicate MatchesPyPattern(name: string) {
    !Hidden(name) && EndsWith(name, ".py")
  }

  // `len(glob.glob(str(path / "**/*.py"), recursive=True)) > 0`: some entry
  // matching `*.py` lies in the directory or below it, reached through
  // directories that are not hidden.
  predicate HasPySource(n: Node)
    decreases n
  {
    n.Dir? && exists c :: c in n.children && (MatchesPyPattern(c.name) || (!Hidden(c.name) && HasPySource(c)))
  }

  /** The paths the recursive glob of `*.py` below `path` lists for the
      directory `n` at `path`: for each child in turn, the child itself
      if it matches `*.py`, then whatever the visible directories below it
      hold. */
  function GlobPy(path: string, n: Node): (found: seq<string>)
    ensures !n.Dir? ==> found == []
    decreases n, 1
  {
    if n.Dir? then GlobPyFrom(path, n, 0) else []
  }

  /** The part of `GlobPy` contributed by the children from the `i`th on. */
  function GlobPyFrom(path: string, n: Node, i: nat): seq<string>
    requires n.Dir? && i <= |n.children|
    decreases n, 0, |n.children| - i
  {
    if i == |n.children| then []
    else
      var c := n.children[i];
      (if MatchesPyPattern(c.name) then [ChildPath(path, c.name)] else [])
        + (if !Hidden(c.name) then GlobPy(ChildPath(path, c.name), c) else [])
        + GlobPyFrom(path, n, i + 1)
  }

  /** `HasPySource` is the glob's finding something: the glob lists a path
      exactly when some child is a match or a visible directory holding one. */
  lemma {:induction false} GlobFindsPySource(path: string, n: Node)
    ensures |GlobPy(path, n)| > 0 <==> HasPySource(n)
    decreases n
  {
    if n.Dir? {
      forall c | c in n.children
        ensures |GlobPy(ChildPath(path, c.name), c)| > 0 <==> HasPySource(c)
      {
        GlobFindsPySource(ChildPath(path, c.name), c);
      }
      GlobFromFindsPySource(path, n, 0);
      assert n.children[0..] == n.children;
    }
  }

  /** The glob lists a path from the `i`th child on exactly when one of those
      children is a match or a visible directory holding one. */
  lemma {:induction false} GlobFromFindsPySource(path: string, n: Node, i: nat)
    requires n.Dir? && i <= |n.children|
    requires forall c :: c in n.children ==> (|GlobPy(ChildPath(path, c.name), c)| > 0 <==> HasPySource(c))
    ensures |GlobPyFrom(path, n, i)| > 0
        <==> exists c :: c in n.children[i..] && (MatchesPyPattern(c.name) || (!Hidden(c.name) && HasPySource(c)))
    decreases |n.children| - i
  {
    if i < |n.children| {
      var c := n.children[i];
      GlobFromFindsPySource(path, n, i + 1);
      assert n.children[i..] == [c] + n.children[i + 1..];
    }
  }

  /** The key and path one child of a library root contributes, if any: a
      `.py` entry under its stem, a directory holding Python code under its
      name. */
  function LibraryEntry(parent: string, c: Node): (r: Option<(string, string)>)
    ensures r.Some? <==> PySuffix(c.name) || (c.Dir? && HasPySource(c))
    ensures r.Some? ==> r.value.1 == ChildPath(parent, c.name)
    ensures r.Some? && PySuffix(c.name) ==> r.value.0 + ".py" == c.name
    ensures r.Some? && !PySuffix(c.name) ==> r.value.0 == c.name
  {
    if PySuffix(c.name) then Some((Stem(c.name), ChildPath(parent, c.name)))
    else if c.Dir? && HasPySource(c) then Some((c.name, ChildPath(parent, c.name)))
    else None
  }

  /** The pairs the loop of `_get_python_libraries` stores, in child order. */
  function LibraryPairs(parent: string, children: seq<Node>): (pairs: seq<(string, string)>)
    decreases |children|
  {
    if |children| == 0 then []
    else
      var last := children[|children| - 1];
      LibraryPairs(parent, children[..|children| - 1])
        + (match LibraryEntry(parent, last) case Some(p) => [p] case None => [])
  }

  /** `_get_python_libraries(pythonpath)` for a path already resolved. */
  method GetPythonLibraries(path: string, root: Node) returns (r: Result<Dict<string, string>, RoutineError>)
    ensures !root.Dir? ==> r == Err(NotADirectory(path))
    ensures root.Dir? ==> r.Ok? && r.value == PutAll(Empty(), LibraryPairs(path, root.children))
  {
    if !root.Dir? {
      return Err(NotADirectory(path));
    }
    var libs: Dict<string, string> := Empty();
    for i := 0 to |root.children|
      invariant libs == PutAll(Empty(), LibraryPairs(path, root.children[..i]))
    {
      var child := root.children[i];
      assert root.children[..i + 1][..i] == root.children[..i];
      var p := ChildPath(path, child.name);
      if PySuffix(child.name) {
        libs := Put(libs, Stem(child.name), p);
      } else if child.Dir? {
        if HasPySource(child) {
          libs := Put(libs, child.name, p);
        }
      }
      ghost var pairs := LibraryPairs(path, root.children[..i + 1]);
      ghost var before := LibraryPairs(path, root.children[..i]);
      assert pairs == before + (match LibraryEntry(path, child) case Some(q) => [q] case None => []);
      PutAllSnoc(Empty(), before, LibraryEntry(path, child));
    }
    assert root.children[..|root.children|] == root.children;
    return Ok(libs);
  }

  /** Storing an optional extra pair at the end. */
  lemma PutAllSnoc(d: Dict<string, string>, pairs: seq<(string, string)>, extra: Option<(string, string)>)
    requires Valid(d)
    ensures PutAll(d, pairs + (match extra case Some(p) => [p] case None => []))
         == (match extra case Some(p) => Put(PutAll(d, pairs), p.0, p.1) case None => PutAll(d, pairs))
  {
    match extra
    case Some(p) =>
      assert (pairs + [p])[..|pairs|] == pairs;
    case None =>
      assert pairs + [] == pairs;
  }

  /** The dictionary `_get_python_libraries` returns for a directory. */
  function RootLibraries(path: string, children: seq<Node>): (libs: Dict<string, string>)
    ensures Valid(libs)
  {
    PutAll(Empty(), LibraryPairs(path, children))
  }

  /** Every pair stored comes from some child. */
  lemma {:induction false} LibraryPairFromChild(path: string, children: seq<Node>, j: nat)
    requires j < |LibraryPairs(path, children)|
    ensures exists i :: 0 <= i < |children| && LibraryEntry(path, children[i]) == Some(LibraryPairs(path, children)[j])
    decreases |children|
  {
    var init := children[..|children| - 1];
    var last := children[|children| - 1];
    var before := LibraryPairs(path, init);
    if j < |before| {
      LibraryPairFromChild(path, init, j);
      var i :| 0 <= i < |init| && LibraryEntry(path, init[i]) == Some(before[j]);
      assert init[i] == children[i];
    } else {
      assert LibraryEntry(path, children[|children| - 1]) == Some(LibraryPairs(path, children)[j]);
    }
  }

  /** Every child with an entry has its pair stored. */
  lemma {:induction false} LibraryPairOfChild(path: string, children: seq<Node>, i: nat)
    requires i < |children| && LibraryEntry(path, children[i]).Some?
    ensures LibraryEntry(path, children[i]).value in LibraryPairs(path, children)
    decreases |children|
  {
    var init := children[..|children| - 1];
    if i < |init| {
      assert init[i] == children[i];
      LibraryPairOfChild(path, init, i);
    }
  }

  /** A key names a library of the root exactly when some child contributes it. */
  lemma RootLibraryKeys(path: string, children: seq<Node>, k: string)
    ensures k in RootLibraries(path, children).values
        <==> exists i :: 0 <= i < |children| && LibraryEntry(path, children[i]).Some?
                          && LibraryEntry(path, children[i]).value.0 == k
  {
    var pairs := LibraryPairs(path, children);
    PutAllKeys(Empty(), pairs, k);
    if k in RootLibraries(path, children).values {
      var j :| 0 <= j < |pairs| && pairs[j].0 == k;
      LibraryPairFromChild(path, children, j);
    }
    if exists i :: 0 <= i < |children| && LibraryEntry(path, children[i]).Some?
                   && LibraryEntry(path, children[i]).value.0 == k {
      var i :| 0 <= i < |children| && LibraryEntry(path, children[i]).Some?
               && LibraryEntry(path, children[i]).value.0 == k;
      LibraryPairOfChild(path, children, i);
      var j :| 0 <= j < |pairs| && pairs[j] == LibraryEntry(path, children[i]).value;
    }
  }

  /** Of several children with the same key, the last one wins: `x.py` listed
      after a directory `x` replaces it, and the other way round. */
  lemma {:induction false} RootLibraryLastWins(path: string, children: seq<Node>, i: nat, k: string, v: string)
    requires i < |children| && LibraryEntry(path, children[i]) == Some((k, v))
    requires forall j :: i < j < |children| ==>
               LibraryEntry(path, children[j]).None? || LibraryEntry(path, children[j]).value.0 != k
    ensures k in RootLibraries(path, children).values
    ensures RootLibraries(path, children).values[k] == v
    decreases |children|
  {
    var init := children[..|children| - 1];
    var last := children[|children| - 1];
    PutAllSnoc(Empty(), LibraryPairs(path, init), LibraryEntry(path, last));
    if i < |children| - 1 {
      assert forall j :: 0 <= j < |init| ==> init[j] == children[j];
      RootLibraryLastWins(path, init, i, k, v);
    }
  }

  /** `all_libs` after the updates: the roots' dictionaries merged in order,
      or the error of the first root that is not a directory. */
  function MergeRoots(roots: seq<(string, Node)>): (r: Result<Dict<string, string>, RoutineError>)
    ensures r.Ok? ==> Valid(r.value) && forall i :: 0 <= i < |roots| ==> roots[i].1.Dir?
    decreases |roots|
  {
    if |roots| == 0 then Ok(Empty())
    else
      var last := roots[|roots| - 1];
      match MergeRoots(roots[..|roots| - 1])
      case Err(e) => Err(e)
      case Ok(d) =>
        if !last.1.Dir? then Err(NotADirectory(last.0))
        else Ok(Update(d, RootLibraries(last.0, last.1.children)))
  }

  /** `glob.glob(str(main_folder / "*"))`: the visible top-level entries. */
  function TopLevelFiles(path: string, children: seq<Node>): (files: seq<string>)
    ensures |files| <= |children|
    ensures forall i :: 0 <= i < |children| && !Hidden(children[i].name) ==>
              ChildPath(path, children[i].name) in files
    ensures forall f :: f in files ==>
              exists i :: 0 <= i < |children| && !Hidden(children[i].name) && f == ChildPath(path, children[i].name)
    decreases |children|
  {
    if |children| == 0 then []
    else
      var last := children[|children| - 1];
      TopLevelFiles(path, children[..|children| - 1])
        + (if Hidden(last.name) then [] else [ChildPath(path, last.name)])
  }

  /** The arguments `checkpoint_codebase` passes to `create_zip`. */
  datatype ZipRequest = ZipRequest(files: seq<string>, outputZipname: string, libraryNames: seq<string>)

  /** `checkpoint_codebase`, up to the call of `create_zip`, which it
      returns. The roots are the extra paths in order, then the main folder. */
  method CheckpointCodebase(mainPath: string, main: Node, extra: seq<(string, Node)>,
                            extraLibraries: seq<string>, outputZipname: Option<string>)
    returns (r: Result<ZipRequest, RoutineError>)
    ensures outputZipname.None? ==> r == Err(OutputNameMissing)
    ensures outputZipname.Some? && MergeRoots(extra + [(mainPath, main)]).Err? ==>
              r == Err(MergeRoots(extra + [(mainPath, main)]).error)
    ensures outputZipname.Some? && MergeRoots(extra + [(mainPath, main)]).Ok? && |extraLibraries| > 0 ==>
              r == Err(ExtraLibrariesNotImplemented)
    ensures outputZipname.Some? && MergeRoots(extra + [(mainPath, main)]).Ok? && |extraLibraries| == 0 ==>
              var all := MergeRoots(extra + [(mainPath, main)]).value;
              main.Dir? && r == Ok(ZipRequest(Values(all) + TopLevelFiles(mainPath, main.children),
                                              outputZipname.value, all.keys))
  {
    if outputZipname.None? {
      return Err(OutputNameMissing);
    }
    var roots := extra + [(mainPath, main)];
    assert roots[..|extra|] == extra;
    var allLibs: Dict<string, string> := Empty();
    for i := 0 to |extra|
      invariant MergeRoots(extra[..i]) == Ok(allLibs)
    {
      assert extra[..i + 1][..i] == extra[..i];
      var libs := GetPythonLibraries(extra[i].0, extra[i].1);
      if libs.Err? {
        MergeStaysFailed(roots, i + 1);
        assert roots[..i + 1] == extra[..i + 1];
        return Err(libs.error);
      }
      allLibs := Update(allLibs, libs.value);
    }
    assert extra[..|extra|] == extra;
    var mainLibs := GetPythonLibraries(mainPath, main);
    if mainLibs.Err? {
      return Err(mainLibs.error);
    }
    allLibs := Update(allLibs, mainLibs.value);
    if |extraLibraries| != 0 {
      return Err(ExtraLibrariesNotImplemented);
    }
    var allFiles := Values(allLibs);
    var topLevel := TopLevelFiles(mainPath, main.children);
    allFiles := allFiles + topLevel;
    r := Ok(ZipRequest(allFiles, outputZipname.value, allLibs.keys));
  }

  /** Once a root fails, merging more roots fails the same way. */
  lemma {:induction false} MergeStaysFailed(roots: seq<(string, Node)>, n: nat)
    requires n <= |roots| && MergeRoots(roots[..n]).Err?
    ensures MergeRoots(roots) == MergeRoots(roots[..n])
    decreases |roots| - n
  {
    if n < |roots| {
      assert roots[..n + 1][..n] == roots[..n];
      MergeStaysFailed(roots, n + 1);
    } else {
      assert roots[..n] == roots;
    }
  }

  /** The main folder is merged last: each of its libraries keeps the main
      folder's path whatever the extra roots hold, and every other library
      keeps the path the extra roots gave it. */
  lemma MainFolderWins(extra: seq<(string, Node)>, mainPath: string, main: Node)
    requires MergeRoots(extra + [(mainPath, main)]).Ok?
    ensures main.Dir? && MergeRoots(extra).Ok?
    ensures MergeRoots(extra + [(mainPath, main)]).value.values
         == MergeRoots(extra).value.values + RootLibraries(mainPath, main.children).values
  {
    var roots := extra + [(mainPath, main)];
    assert roots[..|roots| - 1] == extra;
    UpdateValues(MergeRoots(extra).value, RootLibraries(mainPath, main.children));
  }

  /** A directory counts as a library by what it holds, not by its own name:
      even a hidden directory is one, since the pattern is rooted at it. */
  lemma DirectoryWithModuleIsLibrary(parent: string, name: string, pyFile: string, content: string)
    requires !PySuffix(name) && MatchesPyPattern(pyFile)
    ensures LibraryEntry(parent, Dir(name, [File(pyFile, content)])) == Some((name, ChildPath(parent, name)))
  {
    assert File(pyFile, content) in [File(pyFile, content)];
  }
}
