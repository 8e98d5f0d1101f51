/** `ZipCodebase` (codesave/base.py): opens an archive made by
    `create_unique_zip`, puts it on the module search path and imports from it
    by qualifying every module name with the archive's top-level directory. */
module ZipLoader {
  import opened Wrappers
  import opened Strings
  import opened Collections
  import opened Archive
  import opened LibraryNames
  import opened ImportRewriter
  import opened Namespacer

  /** `sys.path`: the directories and archives searched for modules. */
  class SearchPath {
    var entries: seq<string>

    constructor (entries: seq<string>)
      ensures this.entries == entries
    {
      this.entries := entries;
    }

    /** `sys.path.insert(0, p)` */
    method InsertFirst(p: string)
      modifies this
      ensures entries == [p] + old(entries)
    {
      entries := [p] + entries;
    }
  }

  /** Why opening an archive fails: the `IndexError` of an empty archive
      (`all_files[0]`), or of a name mentioning `.py` that has no second
      segment (`f.split("/")[1]`). */
  datatype LoadError = EmptyArchive | NoSecondSegment(name: string) | NoLibraryToShow

  /** The import system, which the model does not implement: `importModule`
      stands for `importlib.import_module` (`None` for a module that cannot be
      imported) and `getAttr` for `getattr` (`None` for a missing attribute). */
  datatype Runtime<!V> = Runtime(importModule: string -> Option<V>, getAttr: (V, string) -> Option<V>)

  /** The names `_from_import` is given: one name, or a list of them. */
  datatype Members = One(item: string) | Many(items: seq<string>)

  /** `[things_to_import]` for a single string, the list itself otherwise. */
  function MemberList(things: Members): (items: seq<string>)
    ensures things.One? ==> items == [things.item]
    ensures things.Many? ==> items == things.items
  {
    match things
    case One(item) => [item]
    case Many(items) => items
  }

  /** `f.replace(".py", "").split("/")[1]`: the library a name of a unique
      archive belongs to. It is the second segment with every `.py` removed. */
  function SecondLibrary(f: string): (lib: string)
    requires |Split(f, "/")| >= 2
    ensures lib == Replace(Split(f, "/")[1], ".py", "")
  {
    SplitReplaceSecond(f, '/', ".py", "");
    Split(Replace(f, ".py", ""), "/")[1]
  }

  /** The set behind `valid_libraries`: one library per name that mentions
      `.py` and whose second segment does not mention `__init__`. The
      comprehension runs front to back, so the first name that mentions `.py`
      but has no second segment raises. */
  function ValidLibrarySet(names: seq<string>): (r: Result<set<string>, LoadError>)
    ensures r.Err? ==> exists i :: 0 <= i < |names| && r.error == NoSecondSegment(names[i])
                         && MentionsPy(names[i]) && |Split(names[i], "/")| < 2
                         && forall j :: 0 <= j < i ==> !MentionsPy(names[j]) || |Split(names[j], "/")| >= 2
    decreases |names|
  {
    if |names| == 0 then Ok({})
    else
      var f := names[0];
      if !MentionsPy(f) then ValidLibrarySet(names[1..])
      else if |Split(f, "/")| < 2 then Err(NoSecondSegment(f))
      else if Contains(Split(f, "/")[1], "__init__") then ValidLibrarySet(names[1..])
      else match ValidLibrarySet(names[1..])
        case Err(e) => Err(e)
        case Ok(rest) => Ok({SecondLibrary(f)} + rest)
  }

  /** Whether a name of the archive contributes to `valid_libraries`. */
  predicate Contributes(f: string) {
    MentionsPy(f) && |Split(f, "/")| >= 2 && !Contains(Split(f, "/")[1], "__init__")
  }

  /** `valid_libraries` is computed exactly when every name that mentions
      `.py` has a second segment, and then holds the second-segment library of
      every contributing name and nothing else. */
  lemma {:induction false} ValidLibrarySetMembers(names: seq<string>)
    ensures ValidLibrarySet(names).Ok?
        <==> forall i :: 0 <= i < |names| && MentionsPy(names[i]) ==> |Split(names[i], "/")| >= 2
    ensures ValidLibrarySet(names).Ok? ==>
              forall lib :: lib in ValidLibrarySet(names).value
                <==> exists i :: 0 <= i < |names| && Contributes(names[i]) && lib == SecondLibrary(names[i])
    decreases |names|
  {
    if |names| > 0 {
      ValidLibrarySetMembers(names[1..]);
      assert forall i :: 0 < i < |names| ==> names[i] == names[1..][i - 1];
      if ValidLibrarySet(names).Ok? {
        forall lib | exists i :: 0 <= i < |names| && Contributes(names[i]) && lib == SecondLibrary(names[i])
          ensures lib in ValidLibrarySet(names).value
        {
          var i :| 0 <= i < |names| && Contributes(names[i]) && lib == SecondLibrary(names[i]);
          if i > 0 {
            assert names[1..][i - 1] == names[i];
          }
        }
      }
    }
  }

  /** A codebase opened from an archive. */
  class ZipCodebase {
    /** `_library_name`: the top-level directory of the archive. */
    var libraryName: string
    /** `valid_libraries` */
    var validLibraries: seq<string>

    constructor (libraryName: string, validLibraries: seq<string>)
      ensures this.libraryName == libraryName && this.validLibraries == validLibraries
    {
      this.libraryName := libraryName;
      this.validLibraries := validLibraries;
    }

    /** `ZipCodebase(zip_name, verbose, make_unique)`. With `make_unique` the
        archive is first passed through `create_unique_zip` with its defaults
        (timestamped prefix, libraries from the manifest, non-code files kept,
        markers added) and the copy at `tmpName` is opened instead. The archive
        is put at the front of the search path before `valid_libraries` is
        computed, so an error there leaves it on the path. `loaded` is the
        archive that was read. */
    static method Open(archive: seq<Entry>, zipName: string, verbose: bool, makeUnique: bool,
                       tmpName: string, timestamp: string, loads: string -> seq<string>,
                       sysPath: SearchPath)
      returns (r: Result<ZipCodebase, LoadError>, ghost loaded: seq<Entry>, ghost libraries: seq<string>)
      modifies sysPath
      ensures !makeUnique ==> loaded == archive
      ensures makeUnique ==> ResolvedLibraries(archive, None, loads, libraries)
                             && UniqueZipAsWritten(archive, EffectivePrefix(None, timestamp), libraries, true, loaded)
      ensures |loaded| == 0 ==> r == Err(EmptyArchive) && sysPath.entries == old(sysPath.entries)
      ensures |loaded| > 0 ==>
                sysPath.entries == [if makeUnique then tmpName else zipName] + old(sysPath.entries)
      ensures |loaded| > 0 && ValidLibrarySet(Names(loaded)).Err? ==> r == Err(ValidLibrarySet(Names(loaded)).error)
      ensures |loaded| > 0 && ValidLibrarySet(Names(loaded)).Ok? ==>
                if verbose && ValidLibrarySet(Names(loaded)).value == {} then r == Err(NoLibraryToShow)
                else r.Ok?
      ensures r.Ok? ==> fresh(r.value)
                        && r.value.libraryName == Split(loaded[0].name, "/")[0]
                        && NoDuplicates(r.value.validLibraries)
                        && forall lib ::
                             lib in r.value.validLibraries <==> lib in ValidLibrarySet(Names(loaded)).value
    {
      var zip := archive;
      var path := zipName;
      libraries := [];
      if makeUnique {
        zip, libraries := CreateUniqueZipHonouringAddInit(archive, None, timestamp, None, true, true, loads);
        path := tmpName;
      }
      loaded := zip;
      var allFiles := Names(zip);
      if |allFiles| == 0 {
        return Err(EmptyArchive), loaded, libraries;
      }
      var libraryName := Split(allFiles[0], "/")[0];
      sysPath.InsertFirst(path);
      var valid := ValidLibrarySet(allFiles);
      if valid.Err? {
        return Err(valid.error), loaded, libraries;
      }
      var validLibraries := ListFromSet(valid.value);
      if verbose && |validLibraries| == 0 {
        return Err(NoLibraryToShow), loaded, libraries;
      }
      var cb := new ZipCodebase(libraryName, validLibraries);
      r := Ok(cb);
    }

    /** `f"{self.library_name}.{name}"`: the module name asked of the import
        system. */
    function QualifiedName(name: string): (q: string)
      reads this
      ensures StartsWith(q, libraryName + ".")
      ensures q[|libraryName| + 1..] == name
    {
      libraryName + "." + name
    }

    /** `import_module(name)`: resolves the qualified name; the error names
        the module that could not be imported. */
    function ImportModule<V>(rt: Runtime<V>, name: string): (r: Result<V, string>)
      reads this
      ensures r.Ok? <==> rt.importModule(QualifiedName(name)).Some?
      ensures r.Ok? ==> r.value == rt.importModule(QualifiedName(name)).value
      ensures r.Err? ==> r.error == QualifiedName(name)
    {
      match rt.importModule(QualifiedName(name))
      case Some(m) => Ok(m)
      case None => Err(QualifiedName(name))
    }

    /** `_import(name, _as)`: the binding it adds to the caller's namespace.
        The full name is imported first in every case; without an alias a
        dotted name is bound under its first segment, to the top-level
        package, as the `import a.b` statement does. */
    function Import<V>(rt: Runtime<V>, name: string, alias: Option<string>): (r: Result<(string, V), string>)
      reads this
      ensures r.Ok? <==> ImportModule(rt, name).Ok? && (alias.Some? || ImportModule(rt, Split(name, ".")[0]).Ok?)
      ensures r.Ok? && alias.Some? ==> r.value == (alias.value, ImportModule(rt, name).value)
      ensures r.Ok? && alias.None? ==>
                r.value == (Split(name, ".")[0], ImportModule(rt, Split(name, ".")[0]).value)
      ensures r.Err? ==> r.error == QualifiedName(name) || r.error == QualifiedName(Split(name, ".")[0])
    {
      match ImportModule(rt, name)
      case Err(e) => Err(e)
      case Ok(lib) =>
        if alias.Some? then Ok((alias.value, lib))
        else if !Contains(name, ".") then SplitUnseparated(name, '.'); Ok((name, lib))
        else
          var head := Split(name, ".")[0];
          match ImportModule(rt, head)
          case Err(e) => Err(e)
          case Ok(top) => Ok((head, top))
    }

    /** One item of `_from_import`: the attribute of the module if it has
        one, else the submodule `name.item`. */
    function FromImportItem<V>(rt: Runtime<V>, pkg: V, name: string, item: string): (r: Result<V, string>)
      reads this
      ensures r.Ok? <==> rt.getAttr(pkg, item).Some? || rt.importModule(QualifiedName(name + "." + item)).Some?
      ensures rt.getAttr(pkg, item).Some? ==> r.value == rt.getAttr(pkg, item).value
      ensures rt.getAttr(pkg, item).None? && r.Ok? ==> r.value == rt.importModule(QualifiedName(name + "." + item)).value
      ensures r.Err? ==> r.error == QualifiedName(name + "." + item)
    {
      match rt.getAttr(pkg, item)
      case Some(v) => Ok(v)
      case None => ImportModule(rt, name + "." + item)
    }

    /** The bindings `_from_import` makes for `items`, in order, and the error
        that stops it, if any; the bindings made before the error stay. */
    function FromImportBindings<V>(rt: Runtime<V>, pkg: V, name: string, items: seq<string>)
      : (r: (seq<(string, V)>, Option<string>))
      reads this
      ensures |r.0| <= |items|
      ensures forall i :: 0 <= i < |r.0| ==> r.0[i].0 == items[i]
      ensures r.1.None? ==> |r.0| == |items|
      decreases |items|
    {
      if |items| == 0 then ([], None)
      else
        match FromImportItem(rt, pkg, name, items[0])
        case Err(e) => ([], Some(e))
        case Ok(v) =>
          var rest := FromImportBindings(rt, pkg, name, items[1..]);
          ([(items[0], v)] + rest.0, rest.1)
    }

    /** `_from_import(name, things_to_import)`: imports the module, then binds
        each item in turn. */
    method FromImport<V>(rt: Runtime<V>, name: string, things: Members)
      returns (bindings: seq<(string, V)>, error: Option<string>)
      ensures ImportModule(rt, name).Err? ==> bindings == [] && error == Some(ImportModule(rt, name).error)
      ensures ImportModule(rt, name).Ok? ==>
                (bindings, error) == FromImportBindings(rt, ImportModule(rt, name).value, name, MemberList(things))
    {
      var m := ImportModule(rt, name);
      if m.Err? {
        return [], Some(m.error);
      }
      bindings, error := BindItems(rt, m.value, name, MemberList(things));
    }

    /** The loop of `_from_import`: binds the items one after the other and
        stops at the first that resolves neither way. */
    method BindItems<V>(rt: Runtime<V>, pkg: V, name: string, items: seq<string>)
      returns (bindings: seq<(string, V)>, error: Option<string>)
      ensures (bindings, error) == FromImportBindings(rt, pkg, name, items)
    {
      bindings, error := [], None;
      FromImportStarts(rt, pkg, name, items);
      for k := 0 to |items|
        invariant BoundSoFar(rt, pkg, name, items, k, bindings)
        invariant error == None
      {
        var item := FromImportItem(rt, pkg, name, items[k]);
        if item.Err? {
          FromImportStopsAt(rt, pkg, name, items, k, bindings, item.error);
          error := Some(item.error);
          return;
        }
        FromImportStep(rt, pkg, name, items, k, bindings, item.value);
        bindings := bindings + [(items[k], item.value)];
      }
      FromImportEnds(rt, pkg, name, items, bindings);
    }

    /** The loop invariant of `_from_import`: `bindings` are the first
        bindings of the whole specification, and the rest of it is the
        specification of the remaining items. */
    ghost predicate BoundSoFar<V>(rt: Runtime<V>, pkg: V, name: string, items: seq<string>,
                                  k: nat, bindings: seq<(string, V)>)
      reads this
    {
      k <= |items|
      && FromImportBindings(rt, pkg, name, items).0 == bindings + FromImportBindings(rt, pkg, name, items[k..]).0
      && FromImportBindings(rt, pkg, name, items).1 == FromImportBindings(rt, pkg, name, items[k..]).1
    }

    lemma FromImportStarts<V>(rt: Runtime<V>, pkg: V, name: string, items: seq<string>)
      ensures BoundSoFar(rt, pkg, name, items, 0, [])
    {
      assert items[0..] == items;
    }

    lemma FromImportStep<V>(rt: Runtime<V>, pkg: V, name: string, items: seq<string>,
                            k: nat, bindings: seq<(string, V)>, v: V)
      requires k < |items| && BoundSoFar(rt, pkg, name, items, k, bindings)
      requires FromImportItem(rt, pkg, name, items[k]) == Ok(v)
      ensures BoundSoFar(rt, pkg, name, items, k + 1, bindings + [(items[k], v)])
    {
      FromImportGoesOn(rt, pkg, name, items, k, v);
      var next := FromImportBindings(rt, pkg, name, items[k + 1..]);
      assert bindings + ([(items[k], v)] + next.0) == (bindings + [(items[k], v)]) + next.0;
    }

    lemma FromImportStopsAt<V>(rt: Runtime<V>, pkg: V, name: string, items: seq<string>,
                               k: nat, bindings: seq<(string, V)>, e: string)
      requires k < |items| && BoundSoFar(rt, pkg, name, items, k, bindings)
      requires FromImportItem(rt, pkg, name, items[k]) == Err(e)
      ensures FromImportBindings(rt, pkg, name, items) == (bindings, Some(e))
    {
      assert items[k..][0] == items[k];
      FromImportStops(rt, pkg, name, items[k..], e);
      assert bindings + [] == bindings;
    }

    lemma FromImportEnds<V>(rt: Runtime<V>, pkg: V, name: string, items: seq<string>,
                            bindings: seq<(string, V)>)
      requires BoundSoFar(rt, pkg, name, items, |items|, bindings)
      ensures FromImportBindings(rt, pkg, name, items) == (bindings, None)
    {
      assert items[|items|..] == [];
      assert bindings + [] == bindings;
    }

    /** One item bound: the rest of the items are bound after it. */
    lemma FromImportGoesOn<V>(rt: Runtime<V>, pkg: V, name: string, items: seq<string>, k: nat, v: V)
      requires k < |items| && FromImportItem(rt, pkg, name, items[k]) == Ok(v)
      ensures FromImportBindings(rt, pkg, name, items[k..])
           == ([(items[k], v)] + FromImportBindings(rt, pkg, name, items[k + 1..]).0,
               FromImportBindings(rt, pkg, name, items[k + 1..]).1)
    {
      assert items[k..][1..] == items[k + 1..];
    }

    /** An item that fails stops the binding there. */
    lemma FromImportStops<V>(rt: Runtime<V>, pkg: V, name: string, items: seq<string>, e: string)
      requires |items| > 0 && FromImportItem(rt, pkg, name, items[0]) == Err(e)
      ensures FromImportBindings(rt, pkg, name, items) == ([], Some(e))
    {
    }
  }

  /** An archive made unique under a one-directory prefix opens: it is not
      empty when the original was not, its library name is the prefix, and
      every name has the second segment `valid_libraries` reads. */
  lemma UniqueArchiveOpens(zip: seq<Entry>, prefix: string, out: seq<Entry>)
    requires '/' !in prefix && |zip| > 0
    requires UniqueNames(zip, prefix, out)
    ensures |out| > 0 && Split(out[0].name, "/")[0] == prefix
    ensures ValidLibrarySet(Names(out)).Ok?
  {
    RelocatedSegments(prefix, zip[0].name);
    UniqueArchiveUnderPrefix(zip, prefix, out);
    var names := Names(out);
    assert names[0] == out[0].name;
    forall i | 0 <= i < |names|
      ensures |Split(names[i], "/")| >= 2
    {
      assert names[i] in names;
      InsidePrefixTwoSegments(prefix, names[i]);
    }
    ValidLibrarySetMembers(names);
  }

  /** A name inside the prefix directory has at least two segments. */
  lemma InsidePrefixTwoSegments(prefix: string, n: string)
    requires '/' !in prefix && StartsWith(n, prefix + "/")
    ensures |Split(n, "/")| >= 2
  {
    var rest := n[|prefix| + 1..];
    assert n == prefix + "/" + rest;
    RelocatedSegments(prefix, rest);
  }

  /** Opened with `make_unique`, a non-empty archive is named after the
      timestamped prefix. */
  lemma UniqueCodebaseName(archive: seq<Entry>, timestamp: string, libraries: seq<string>, loaded: seq<Entry>)
    requires '/' !in timestamp && |archive| > 0
    requires UniqueZipAsWritten(archive, EffectivePrefix(None, timestamp), libraries, true, loaded)
    ensures |loaded| > 0 && Split(loaded[0].name, "/")[0] == "codebase_" + timestamp
    ensures ValidLibrarySet(Names(loaded)).Ok?
  {
    DefaultPrefixFree(timestamp);
    CopiedNames(archive, EffectivePrefix(None, timestamp), libraries, true, loaded);
    UniqueArchiveOpens(archive, EffectivePrefix(None, timestamp), loaded);
  }

  /** `_import(name)` of an undotted name binds the module under its own name. */
  lemma ImportPlainName<V>(cb: ZipCodebase, rt: Runtime<V>, name: string, v: V)
    requires !Contains(name, ".")
    requires rt.importModule(cb.QualifiedName(name)) == Some(v)
    ensures cb.Import(rt, name, None) == Ok((name, v))
  {
  }

  /** `_import("a.b")` binds `a` to the top-level package, and still fails
      when `a.b` itself cannot be imported. */
  lemma ImportDottedName<V>(cb: ZipCodebase, rt: Runtime<V>, head: string, rest: string)
    requires '.' !in head
    ensures rt.importModule(cb.QualifiedName(head + "." + rest)).Some? ==>
              cb.Import(rt, head + "." + rest, None)
                == match rt.importModule(cb.QualifiedName(head))
                   case Some(top) => Ok((head, top))
                   case None => Err(cb.QualifiedName(head))
    ensures rt.importModule(cb.QualifiedName(head + "." + rest)).None? ==>
              cb.Import(rt, head + "." + rest, None) == Err(cb.QualifiedName(head + "." + rest))
  {
    var name := head + "." + rest;
    assert name == head + ['.'] + rest;
    SplitAtFirst(head, '.', rest);
    assert name[|head|..][..1] == ".";
    ContainsAt(name, |head|, ".");
  }

  /** With an alias the module named in full is bound under the alias; the
      full name must be importable whatever the alias. */
  lemma ImportWithAlias<V>(cb: ZipCodebase, rt: Runtime<V>, name: string, alias: string)
    ensures cb.Import(rt, name, Some(alias))
         == match rt.importModule(cb.QualifiedName(name))
            case Some(v) => Ok((alias, v))
            case None => Err(cb.QualifiedName(name))
  {
  }

  /** When every item resolves, `_from_import` binds each item, in order, to
      its attribute or else its submodule, and reports no error. */
  lemma {:induction false} FromImportAllBound<V>(cb: ZipCodebase, rt: Runtime<V>, pkg: V, name: string,
                                                 items: seq<string>)
    requires forall i :: 0 <= i < |items| ==> cb.FromImportItem(rt, pkg, name, items[i]).Ok?
    ensures cb.FromImportBindings(rt, pkg, name, items).1 == None
    ensures |cb.FromImportBindings(rt, pkg, name, items).0| == |items|
    ensures forall i :: 0 <= i < |items| ==>
              cb.FromImportBindings(rt, pkg, name, items).0[i].1 == cb.FromImportItem(rt, pkg, name, items[i]).value
    decreases |items|
  {
    if |items| > 0 {
      FromImportAllBound(cb, rt, pkg, name, items[1..]);
      assert forall i :: 1 <= i < |items| ==> items[1..][i - 1] == items[i];
    }
  }

  /** The first item that resolves neither as an attribute nor as a
      submodule ends `_from_import` with that submodule's error; the items
      before it stay bound. */
  lemma {:induction false} FromImportFirstFailure<V>(cb: ZipCodebase, rt: Runtime<V>, pkg: V, name: string,
                                                     items: seq<string>, k: nat)
    requires k < |items|
    requires forall i :: 0 <= i < k ==> cb.FromImportItem(rt, pkg, name, items[i]).Ok?
    requires cb.FromImportItem(rt, pkg, name, items[k]).Err?
    ensures cb.FromImportBindings(rt, pkg, name, items).1 == Some(cb.QualifiedName(name + "." + items[k]))
    ensures |cb.FromImportBindings(rt, pkg, name, items).0| == k
    decreases k
  {
    if k > 0 {
      FromImportFirstFailure(cb, rt, pkg, name, items[1..], k - 1);
      assert items[1..][k - 1] == items[k];
      assert forall i :: 0 <= i < k - 1 ==> items[1..][i] == items[i + 1];
    }
  }

  /** Opened with `make_unique`, the codebase names every library of the
      original archive in `valid_libraries`, and the module the rewriter
      points an import of such a library at is the one `import_module`
      resolves for it. `cb` is the codebase `Open` returned for `loaded`. */
  lemma RewrittenNameIsQualified(archive: seq<Entry>, timestamp: string, libraries: seq<string>,
                                 loaded: seq<Entry>, cb: ZipCodebase, f: string, rest: string)
    requires '/' !in timestamp && '.' !in timestamp && |archive| > 0
    requires UniqueZipAsWritten(archive, EffectivePrefix(None, timestamp), libraries, true, loaded)
    requires |loaded| > 0 && cb.libraryName == Split(loaded[0].name, "/")[0]
    requires ValidLibrarySet(Names(loaded)).Ok?
    requires forall l :: l in cb.validLibraries <==> l in ValidLibrarySet(Names(loaded)).value
    requires f in Names(archive) && KeepsLibrary(f)
    ensures LibraryOf(f) in cb.validLibraries
    ensures PrefixedName(EffectivePrefix(None, timestamp))(LibraryOf(f)) + rest == cb.QualifiedName(LibraryOf(f) + rest)
  {
    var prefix := EffectivePrefix(None, timestamp);
    DefaultPrefixFree(timestamp);
    UniqueCodebaseName(archive, timestamp, libraries, loaded);
    UniqueArchiveLibraries(archive, prefix, libraries, true, loaded);
    var lib := LibraryOf(f);
    assert prefix + "." + lib + rest == prefix + "." + (lib + rest);
  }

  /** A name of the original archive whose library survives into
      `valid_libraries`: it mentions `.py`, and its first segment, which
      becomes the second, does not mention `__init__`. */
  predicate KeepsLibrary(f: string) {
    MentionsPy(f) && !Contains(Split(f, "/")[0], "__init__")
  }

  /** A copied name contributes exactly when the original name keeps its
      library, and contributes that library. */
  lemma CopiedContribution(prefix: string, f: string)
    requires '/' !in prefix && '.' !in prefix
    ensures Contributes(Relocate(prefix, f)) <==> KeepsLibrary(f)
    ensures Contributes(Relocate(prefix, f)) ==> SecondLibrary(Relocate(prefix, f)) == LibraryOf(f)
  {
    var n := Relocate(prefix, f);
    RelocatedSegments(prefix, f);
    assert n == (prefix + "/") + f;
    assert '.' !in prefix + "/";
    if MentionsPy(f) {
      ContainsInTail(prefix + "/", f, ".py");
    } else {
      NotContainsAfterFree(prefix + "/", f, ".py");
    }
  }

  /** A marker contributes only below the prefix's own directory, and then
      the library of the file that asked for it. */
  lemma MarkerContribution(prefix: string, f: string, m: string)
    requires '/' !in prefix && EndsWith(f, ".py")
    requires m in MarkersOf(Relocate(prefix, f)) && Contributes(m)
    ensures KeepsLibrary(f) && SecondLibrary(m) == LibraryOf(f)
  {
    var parts := Split(Relocate(prefix, f), "/");
    RelocatedSegments(prefix, f);
    var i :| 1 <= i <= |parts| - 2 && m == MarkerAt(parts, i);
    SplitPartsFree(Relocate(prefix, f), '/');
    MarkerSegments(parts, i);
    assert StartsWith(InitName, "__init__");
    assert i >= 2;
    assert Split(m, "/")[1] == parts[1] == Split(f, "/")[0];
    assert f[|f| - 3..] == ".py";
    ContainsAt(f, |f| - 3, ".py");
  }

  /** Opening the archive `create_unique_zip` wrote gives back the libraries
      of the original archive: those of its names that mention `.py`, less
      the ones whose top segment mentions `__init__`. */
  lemma UniqueArchiveLibraries(zip: seq<Entry>, prefix: string, libraries: seq<string>,
                               saveNonCode: bool, out: seq<Entry>)
    requires '/' !in prefix && '.' !in prefix && |zip| > 0
    requires UniqueZipAsWritten(zip, prefix, libraries, saveNonCode, out)
    ensures ValidLibrarySet(Names(out)).Ok?
    ensures forall lib :: lib in ValidLibrarySet(Names(out)).value
                <==> exists f :: f in Names(zip) && KeepsLibrary(f) && lib == LibraryOf(f)
  {
    CopiedNames(zip, prefix, libraries, saveNonCode, out);
    UniqueArchiveOpens(zip, prefix, out);
    ValidLibrarySetMembers(Names(out));
    forall lib
      ensures lib in ValidLibrarySet(Names(out)).value
          <==> exists f :: f in Names(zip) && KeepsLibrary(f) && lib == LibraryOf(f)
    {
      if lib in ValidLibrarySet(Names(out)).value {
        var i :| 0 <= i < |out| && Contributes(Names(out)[i]) && lib == SecondLibrary(Names(out)[i]);
        ContributionFromInput(zip, prefix, out, i);
      }
      if exists f :: f in Names(zip) && KeepsLibrary(f) && lib == LibraryOf(f) {
        var f :| f in Names(zip) && KeepsLibrary(f) && lib == LibraryOf(f);
        InputContributes(zip, prefix, out, f);
      }
    }
  }

  /** Every name of the unique archive that contributes a library, copy or
      marker, contributes the library of some input name. */
  lemma ContributionFromInput(zip: seq<Entry>, prefix: string, out: seq<Entry>, i: nat)
    requires '/' !in prefix && '.' !in prefix
    requires UniqueNames(zip, prefix, out)
    requires i < |out| && Contributes(Names(out)[i])
    ensures exists f :: f in Names(zip) && KeepsLibrary(f) && SecondLibrary(Names(out)[i]) == LibraryOf(f)
  {
    var copied := out[..|zip|];
    var added := out[|zip|..];
    assert out == copied + added;
    NamesOfConcat(copied, added);
    var n := Names(out)[i];
    if i < |zip| {
      CopiedContribution(prefix, zip[i].name);
      assert zip[i].name in Names(zip);
    } else {
      assert n == Names(added)[i - |zip|];
      assert n in Names(added);
      RequiredMarkersMembers(Names(copied), n);
      var k :| 0 <= k < |copied| && EndsWith(Names(copied)[k], ".py") && n in MarkersOf(Names(copied)[k]);
      assert Names(copied)[k] == Names(out)[k] == Relocate(prefix, zip[k].name);
      CodeSuffixUnderPrefix(prefix, zip[k].name);
      MarkerContribution(prefix, zip[k].name, n);
      assert zip[k].name in Names(zip);
    }
  }

  /** Every input name that keeps its library contributes it through its copy. */
  lemma InputContributes(zip: seq<Entry>, prefix: string, out: seq<Entry>, f: string)
    requires '/' !in prefix && '.' !in prefix
    requires UniqueNames(zip, prefix, out)
    requires f in Names(zip) && KeepsLibrary(f)
    ensures exists i :: 0 <= i < |out| && Contributes(Names(out)[i]) && SecondLibrary(Names(out)[i]) == LibraryOf(f)
  {
    var k :| 0 <= k < |zip| && Names(zip)[k] == f;
    CopiedContribution(prefix, f);
    assert Names(out)[k] == Relocate(prefix, f);
  }
}
