/** The archive step of `create_zip` (codesave/base.py): every path the
    recursive glob lists in the staging directory, file or directory, that no
    ignore pattern flags is written to the archive, followed by
    `library_names.json`. */
module ArchiveBuilder {
  import opened Wrappers
  import opened Strings
  import opened Collections
  import opened Archive
  import opened LibraryNames
  import opened FileTree

  /** The name of the manifest entry. */
  const ManifestName := "library_names.json"

  /** The default ignore pattern `_is_pycache`: compiled bytecode files. */
  function IsPycache(fname: string): (ignored: bool)
    ensures ignored <==> |fname| >= 4 && fname[|fname| - 4..] == ".pyc"
  {
    EndsWith(fname, ".pyc")
  }

  /** `any([pattern(f) for pattern in ignore_file_patterns])` */
  function AnyPattern(ignore: seq<string -> bool>, path: string): (flagged: bool)
    ensures flagged <==> exists i :: 0 <= i < |ignore| && ignore[i](path)
    decreases |ignore|
  {
    if |ignore| == 0 then false
    else ignore[0](path) || AnyPattern(ignore[1..], path)
  }

  /** A path the recursive glob lists, whether it is a directory, and the
      entry `zip.write(path, arcname=...)` stores for it. */
  datatype Staged = Staged(path: string, isDir: bool, entry: Entry)

  /** `glob.glob(str(main_dir / "**"), recursive=True)` for the staging
      directory at `root`, each path paired with its archive entry. The
      directory itself comes first, as `root/`, and is stored as `./`; then
      every visible entry below it follows in preorder, in listing order. An
      entry is named by its path relative to `root`, a directory's with a
      trailing `/` and no content. */
  function Listing(root: string, children: seq<Node>): (listed: seq<Staged>)
    ensures |listed| > 0 && listed[0] == Staged(root + "/", true, Entry("./", []))
  {
    [Staged(root + "/", true, Entry("./", []))] + Walk(root, [], Dir([], children))
  }

  /** The glob below the directory `n` at `dir`, whose entries are named
      starting with `rel`. */
  function Walk(dir: string, rel: string, n: Node): seq<Staged>
    decreases n, 1
  {
    if n.Dir? then WalkFrom(dir, rel, n, 0) else []
  }

  /** The part of `Walk` that the children from the `i`th on contribute. */
  function WalkFrom(dir: string, rel: string, n: Node, i: nat): seq<Staged>
    requires n.Dir? && i <= |n.children|
    decreases n, 0, |n.children| - i
  {
    if i == |n.children| then []
    else
      var c := n.children[i];
      var path := ChildPath(dir, c.name);
      (if Hidden(c.name) then []
       else if c.File? then [Staged(path, false, Entry(rel + c.name, c.content))]
       else [Staged(path, true, Entry(rel + c.name + "/", []))] + Walk(path, rel + c.name + "/", c))
        + WalkFrom(dir, rel, n, i + 1)
  }

  /** `s` lies below `dir`, and its entry is named `rel` followed by its path
      relative to `dir`, with a trailing `/` and no content for a directory. */
  ghost predicate Below(dir: string, rel: string, s: Staged) {
    && |s.path| >= |dir| + 1
    && s.path[..|dir| + 1] == dir + "/"
    && s.entry.name == rel + s.path[|dir| + 1..] + (if s.isDir then "/" else "")
    && (s.isDir ==> s.entry.content == [])
  }

  /** What lies below a child directory lies below its parent. */
  lemma BelowParent(dir: string, rel: string, name: string, s: Staged)
    requires Below(ChildPath(dir, name), rel + name + "/", s)
    ensures Below(dir, rel, s)
  {
    var child := ChildPath(dir, name);
    var rest := s.path[|child| + 1..];
    assert s.path == child + "/" + rest;
    assert s.path == dir + "/" + (name + "/" + rest);
    assert s.path[..|dir| + 1] == dir + "/";
    assert s.path[|dir| + 1..] == name + "/" + rest;
  }

  lemma {:induction false} WalkBelow(dir: string, rel: string, n: Node, listed: seq<Staged>)
    requires listed == Walk(dir, rel, n)
    ensures forall k :: 0 <= k < |listed| ==> Below(dir, rel, listed[k])
    decreases n, 1
  {
    if n.Dir? {
      WalkFromBelow(dir, rel, n, 0, listed);
    }
  }

  lemma {:induction false} WalkFromBelow(dir: string, rel: string, n: Node, i: nat, listed: seq<Staged>)
    requires n.Dir? && i <= |n.children|
    requires listed == WalkFrom(dir, rel, n, i)
    ensures forall k :: 0 <= k < |listed| ==> Below(dir, rel, listed[k])
    decreases n, 0, |n.children| - i
  {
    if i < |n.children| {
      var c := n.children[i];
      var path := ChildPath(dir, c.name);
      var rest := WalkFrom(dir, rel, n, i + 1);
      WalkFromBelow(dir, rel, n, i + 1, rest);
      var here: seq<Staged>;
      if Hidden(c.name) {
        here := [];
      } else if c.File? {
        here := [Staged(path, false, Entry(rel + c.name, c.content))];
        assert path[..|dir| + 1] == dir + "/" && path[|dir| + 1..] == c.name;
      } else {
        var inner := Walk(path, rel + c.name + "/", c);
        WalkBelow(path, rel + c.name + "/", c, inner);
        forall k | 0 <= k < |inner|
          ensures Below(dir, rel, inner[k])
        {
          BelowParent(dir, rel, c.name, inner[k]);
        }
        assert path[..|dir| + 1] == dir + "/" && path[|dir| + 1..] == c.name;
        here := [Staged(path, true, Entry(rel + c.name + "/", []))] + inner;
      }
      assert listed == here + rest;
    }
  }

  /** Every path the glob lists after the staging directory lies below it,
      and is written under its path relative to the staging directory: as is
      for a file, with a trailing `/` and no content for a directory. */
  lemma ListingBelow(root: string, children: seq<Node>)
    ensures forall k :: 1 <= k < |Listing(root, children)| ==> Below(root, [], Listing(root, children)[k])
  {
    var listed := Listing(root, children);
    var walked := Walk(root, [], Dir([], children));
    WalkBelow(root, [], Dir([], children), walked);
    assert forall k :: 1 <= k < |listed| ==> listed[k] == walked[k - 1];
  }

  /** The listed paths that survive the filter, in glob order. */
  function Kept(listed: seq<Staged>, ignore: seq<string -> bool>): (kept: seq<Staged>)
    ensures |kept| <= |listed|
    ensures forall i :: 0 <= i < |kept| ==> kept[i] in listed && !AnyPattern(ignore, kept[i].path)
    ensures (forall i :: 0 <= i < |listed| ==> !AnyPattern(ignore, listed[i].path)) ==> kept == listed
    decreases |listed|
  {
    if |listed| == 0 then []
    else
      var last := listed[|listed| - 1];
      Kept(listed[..|listed| - 1], ignore) + (if AnyPattern(ignore, last.path) then [] else [last])
  }

  /** The entries `zip.write` stores for the listed paths, in order. */
  function Entries(listed: seq<Staged>): (entries: seq<Entry>)
    ensures |entries| == |listed|
    ensures forall i :: 0 <= i < |listed| ==> entries[i] == listed[i].entry
  {
    if |listed| == 0 then [] else Entries(listed[..|listed| - 1]) + [listed[|listed| - 1].entry]
  }

  /** `create_zip` from the staged tree on: writes the entries of the listed
      paths no pattern flags, then the manifest. `children` is the content of
      the staging directory at `root`. `recorded` is the library list written
      into the manifest. */
  method CreateZip(root: string, children: seq<Node>, libraryNames: Option<seq<string>>,
                   ignore: seq<string -> bool>, dumps: seq<string> -> string)
    returns (zip: seq<Entry>, ghost recorded: seq<string>)
    ensures zip == Entries(Kept(Listing(root, children), ignore)) + [Entry(ManifestName, dumps(recorded))]
    ensures libraryNames.Some? ==> recorded == libraryNames.value
    ensures libraryNames.None? ==> NoDuplicates(recorded)
    ensures libraryNames.None? ==>
              forall n :: n in recorded <==> n in LibraryNameSet(Names(Entries(Kept(Listing(root, children), ignore))))
  {
    var filesToAdd := Listing(root, children);
    zip := WriteKept(filesToAdd, ignore);
    var names: seq<string>;
    if libraryNames.None? {
      names := GetLibraryNames(Names(zip));
    } else {
      names := libraryNames.value;
    }
    recorded := names;
    zip := zip + [Entry(ManifestName, dumps(names))];
  }

  /** The loop of `create_zip` over the glob: writes the entry of each listed
      path that no pattern flags, in glob order. */
  method WriteKept(filesToAdd: seq<Staged>, ignore: seq<string -> bool>) returns (zip: seq<Entry>)
    ensures zip == Entries(Kept(filesToAdd, ignore))
  {
    zip := [];
    for i := 0 to |filesToAdd|
      invariant zip == Entries(Kept(filesToAdd[..i], ignore))
    {
      KeptPrefix(filesToAdd, ignore, i);
      if !AnyPattern(ignore, filesToAdd[i].path) {
        EntriesAppend(Kept(filesToAdd[..i], ignore), filesToAdd[i]);
        zip := zip + [filesToAdd[i].entry];
      }
    }
    assert filesToAdd[..|filesToAdd|] == filesToAdd;
  }

  lemma KeptPrefix(listed: seq<Staged>, ignore: seq<string -> bool>, i: nat)
    requires i < |listed|
    ensures Kept(listed[..i + 1], ignore)
         == Kept(listed[..i], ignore) + (if AnyPattern(ignore, listed[i].path) then [] else [listed[i]])
  {
    assert listed[..i + 1][..i] == listed[..i];
  }

  lemma EntriesAppend(listed: seq<Staged>, s: Staged)
    ensures Entries(listed + [s]) == Entries(listed) + [s.entry]
  {
    assert (listed + [s])[..|listed|] == listed;
  }

  /** A listed path is kept exactly when it was listed and no pattern flags
      it: the patterns see the path, not the archive name. */
  lemma {:induction false} KeptMembers(listed: seq<Staged>, ignore: seq<string -> bool>, s: Staged)
    ensures s in Kept(listed, ignore) <==> s in listed && !AnyPattern(ignore, s.path)
    decreases |listed|
  {
    if |listed| > 0 {
      var init := listed[..|listed| - 1];
      KeptMembers(init, ignore, s);
      assert listed == init + [listed[|listed| - 1]];
    }
  }

  /** Unless a pattern flags the staging directory's own path `root/`, the
      archive starts with the entry `./`. The default pattern never does. */
  lemma RootEntryFirst(root: string, children: seq<Node>, ignore: seq<string -> bool>)
    requires !AnyPattern(ignore, root + "/")
    ensures |Kept(Listing(root, children), ignore)| > 0
    ensures Entries(Kept(Listing(root, children), ignore))[0] == Entry("./", [])
    ensures !IsPycache(root + "/")
  {
    var listed := Listing(root, children);
    KeptMembers(listed, ignore, listed[0]);
    KeptFirst(listed, ignore);
    assert (root + "/")[|root + "/"| - 1] == '/';
  }

  /** When the first listed path is kept, it comes first. */
  lemma {:induction false} KeptFirst(listed: seq<Staged>, ignore: seq<string -> bool>)
    requires |listed| > 0 && !AnyPattern(ignore, listed[0].path)
    ensures |Kept(listed, ignore)| > 0 && Kept(listed, ignore)[0] == listed[0]
    decreases |listed|
  {
    if |listed| > 1 {
      var init := listed[..|listed| - 1];
      KeptFirst(init, ignore);
    }
  }

  /** With the default pattern, a listed path below the staging directory is
      left out exactly when its relative path ends in `.pyc`: a file named
      `*.pyc`, and also a directory so named. */
  lemma DefaultIgnoresBytecode(root: string, children: seq<Node>, s: Staged)
    requires s in Listing(root, children)[1..]
    ensures Below(root, [], s)
    ensures s in Kept(Listing(root, children), [IsPycache]) <==> !EndsWith(s.path[|root| + 1..], ".pyc")
  {
    ListedBelow(root, children, s);
    KeptMembers(Listing(root, children), [IsPycache], s);
    PycacheBelow(root, s);
  }

  lemma ListedBelow(root: string, children: seq<Node>, s: Staged)
    requires s in Listing(root, children)[1..]
    ensures s in Listing(root, children) && Below(root, [], s)
  {
    var listed := Listing(root, children);
    ListingBelow(root, children);
    var k :| 0 <= k < |listed[1..]| && listed[1..][k] == s;
    assert listed[k + 1] == s;
  }

  /** Below the staging directory, the default pattern sees the `.pyc`
      suffix of the relative path. */
  lemma PycacheBelow(root: string, s: Staged)
    requires Below(root, [], s)
    ensures IsPycache(s.path) <==> EndsWith(s.path[|root| + 1..], ".pyc")
  {
    SuffixBelow(root, s.path[|root| + 1..], ".pyc");
    assert s.path == root + "/" + s.path[|root| + 1..];
  }

  /** A suffix without `/` ends a path below a directory exactly when it
      ends the relative path. */
  lemma SuffixBelow(dir: string, rest: string, suffix: string)
    requires '/' !in suffix
    ensures EndsWith(dir + "/" + rest, suffix) <==> EndsWith(rest, suffix)
  {
    var p := dir + "/" + rest;
    if |rest| >= |suffix| {
      assert p[|p| - |suffix|..] == rest[|rest| - |suffix|..];
    } else if |p| >= |suffix| {
      assert p[|dir|] == '/';
      assert p[|p| - |suffix|..][|dir| - (|p| - |suffix|)] == '/';
    }
  }

  /** A pattern that flags a directory's path drops its entry `d/`, whatever
      the archive name looks like. */
  lemma DirectoryFilteredByPath(root: string, d: string, ignore: seq<string -> bool>)
    requires !Hidden(d) && !AnyPattern(ignore, root + "/") && AnyPattern(ignore, ChildPath(root, d))
    ensures Entries(Kept(Listing(root, [Dir(d, [])]), ignore)) == [Entry("./", [])]
  {
    var empty: string := [];
    var top := Dir(empty, [Dir(d, [])]);
    var path := ChildPath(root, d);
    var sub := Staged(path, true, Entry(empty + d + "/", []));
    assert WalkFrom(path, empty + d + "/", Dir(d, []), 0) == [];
    assert WalkFrom(root, empty, top, 1) == [];
    assert WalkFrom(root, empty, top, 0) == [sub];
    var listed := Listing(root, [Dir(d, [])]);
    assert listed == [listed[0], sub];
    assert listed[..1] == [listed[0]];
  }

  /** The default pattern leaves out the bytecode files of a `__pycache__`
      directory but still writes the directory's own entry. */
  lemma PycacheDirectoryWritten(root: string, d: string, f: string, content: string)
    requires !Hidden(d) && !Hidden(f) && !EndsWith(d, ".pyc") && EndsWith(f, ".pyc")
    ensures Entries(Kept(Listing(root, [Dir(d, [File(f, content)])]), [IsPycache]))
         == [Entry("./", []), Entry(d + "/", [])]
  {
    var tree := Dir(d, [File(f, content)]);
    var listed := Listing(root, [tree]);
    var dirPath := ChildPath(root, d);
    var sub := Staged(dirPath, true, Entry(d + "/", []));
    var pyc := Staged(ChildPath(dirPath, f), false, Entry(d + "/" + f, content));
    PycacheListing(root, d, f, content);
    assert IsPycache(pyc.path) by {
      SuffixBelow(dirPath, f, ".pyc");
    }
    assert !IsPycache(sub.path) by {
      SuffixBelow(root, d, ".pyc");
    }
    assert !IsPycache(root + "/") by {
      assert (root + "/")[|root + "/"| - 1] == '/';
    }
    RootEntryFirst(root, [tree], [IsPycache]);
    assert listed[..1] == [listed[0]];
    assert listed[..2] == [listed[0], sub];
    assert listed[..2][..1] == listed[..1];
    assert listed[..3][..2] == listed[..2];
  }

  /** The glob of a staging directory holding one directory with one file. */
  lemma PycacheListing(root: string, d: string, f: string, content: string)
    requires !Hidden(d) && !Hidden(f)
    ensures Listing(root, [Dir(d, [File(f, content)])])
         == [Staged(root + "/", true, Entry("./", [])),
             Staged(ChildPath(root, d), true, Entry(d + "/", [])),
             Staged(ChildPath(ChildPath(root, d), f), false, Entry(d + "/" + f, content))]
  {
    var empty: string := [];
    var tree := Dir(d, [File(f, content)]);
    var top := Dir(empty, [tree]);
    var dirPath := ChildPath(root, d);
    var sub := Staged(dirPath, true, Entry(empty + d + "/", []));
    var pyc := Staged(ChildPath(dirPath, f), false, Entry(empty + d + "/" + f, content));
    assert WalkFrom(dirPath, empty + d + "/", tree, 1) == [];
    assert WalkFrom(dirPath, empty + d + "/", tree, 0) == [pyc];
    assert WalkFrom(root, empty, top, 1) == [];
    assert WalkFrom(root, empty, top, 0) == [sub, pyc];
    assert empty + d + "/" == d + "/";
  }

  /** The library list a manifest announces, if the archive has one. */
  function ManifestLibraries(zip: seq<Entry>, loads: string -> seq<string>): Option<seq<string>> {
    match Read(zip, ManifestName)
    case None => None
    case Some(text) => Some(loads(text))
  }

  /** The manifest is written last, so it is the one a later `zip.read`
      finds, even when a staged file had the same name; when `json.loads`
      undoes `json.dumps`, the archive announces exactly the recorded list. */
  lemma ManifestRoundTrip(kept: seq<Entry>, recorded: seq<string>,
                          dumps: seq<string> -> string, loads: string -> seq<string>)
    requires loads(dumps(recorded)) == recorded
    ensures ManifestLibraries(kept + [Entry(ManifestName, dumps(recorded))], loads) == Some(recorded)
  {
    var zip := kept + [Entry(ManifestName, dumps(recorded))];
    assert zip[..|zip| - 1] == kept;
  }
}
