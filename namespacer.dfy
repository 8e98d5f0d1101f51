/** `create_unique_zip` (codesave/base.py): copies an archive made by
    `create_zip` under a fresh top-level directory `prefix`, rewrites the
    imports of its libraries to go through that directory, and adds the
    `__init__.py` markers that make the directories importable packages. */
module Namespacer {
  import opened Wrappers
  import opened Strings
  import opened Collections
  import opened Archive
  import opened LibraryNames
  import opened ImportRewriter
  import opened ArchiveBuilder

  /** The name of a package marker. */
  const InitName := "__init__.py"

  /** `prefix or "codebase_<timestamp>"`: a missing or empty prefix is
      replaced by the timestamped default; the clock reading is a parameter. */
  function EffectivePrefix(prefix: Option<string>, timestamp: string): (p: string)
    ensures |p| > 0
    ensures prefix.Some? && prefix.value != [] ==> p == prefix.value
    ensures prefix.None? || prefix.value == [] ==> p == "codebase_" + timestamp
    ensures prefix.None? || prefix.value == [] ==> StartsWith(p, "codebase_")
  {
    if prefix.Some? && prefix.value != [] then prefix.value else "codebase_" + timestamp
  }

  /** The default prefix is a single directory name when the timestamp is. */
  lemma DefaultPrefixFree(timestamp: string)
    requires '/' !in timestamp
    ensures '/' !in EffectivePrefix(None, timestamp)
    ensures '.' !in timestamp ==> '.' !in EffectivePrefix(None, timestamp)
  {
    assert '/' !in "codebase_" && '.' !in "codebase_";
  }

  /** The library list the copy pass rewrites with: the argument when given,
      else the manifest's list, else the names read off the archive. */
  ghost predicate ResolvedLibraries(zip: seq<Entry>, libraryNames: Option<seq<string>>,
                              loads: string -> seq<string>, names: seq<string>)
  {
    if libraryNames.Some? then names == libraryNames.value
    else if ManifestLibraries(zip, loads).Some? then names == ManifestLibraries(zip, loads).value
    else NoDuplicates(names) && forall n :: n in names <==> n in LibraryNameSet(Names(zip))
  }

  /** The `library_names is None` branch of `create_unique_zip`. */
  method ResolveLibraryNames(zip: seq<Entry>, libraryNames: Option<seq<string>>,
                             loads: string -> seq<string>)
    returns (names: seq<string>)
    ensures ResolvedLibraries(zip, libraryNames, loads, names)
    ensures libraryNames.None? && ManifestName !in Names(zip) ==>
              forall n :: n in names ==> '/' !in n
  {
    if libraryNames.Some? {
      names := libraryNames.value;
    } else if ManifestName in Names(zip) {
      names := loads(Read(zip, ManifestName).value);
    } else {
      names := GetLibraryNames(Names(zip));
    }
  }

  /** The name an entry gets in the new archive. */
  function Relocate(prefix: string, name: string): string {
    prefix + "/" + name
  }

  /** What the copy pass writes for the entry named `name`, given the
      `content` that `zip.read(old_filename)` returns for it: the entry under
      the prefix, with the content copied verbatim when the new name does not
      end in `.py` and `save_non_code` is set, and with its imports rewritten
      otherwise. */
  function Relocated(name: string, content: string, prefix: string, libraries: seq<string>,
                     saveNonCode: bool): (r: Entry)
    ensures r.name == Relocate(prefix, name)
    ensures !EndsWith(name, ".py") && saveNonCode ==> r.content == content
    ensures EndsWith(name, ".py") || !saveNonCode ==>
              r.content == RewriteImports(content, libraries, PrefixedName(prefix), BareName)
  {
    var newName := Relocate(prefix, name);
    CodeSuffixUnderPrefix(prefix, name);
    if !EndsWith(newName, ".py") && saveNonCode then Entry(newName, content)
    else Entry(newName, RewriteImports(content, libraries, PrefixedName(prefix), BareName))
  }

  /** The content `zip.read` returns for the name of the `i`th entry: that of
      the last entry of the same name. */
  function ReadBack(zip: seq<Entry>, i: nat): (content: string)
    requires i < |zip|
    ensures Read(zip, zip[i].name) == Some(content)
  {
    assert Names(zip)[i] == zip[i].name;
    Read(zip, zip[i].name).value
  }

  /** Moving a name under a directory does not change whether it ends in `.py`. */
  lemma CodeSuffixUnderPrefix(prefix: string, name: string)
    ensures EndsWith(Relocate(prefix, name), ".py") <==> EndsWith(name, ".py")
  {
    var s := Relocate(prefix, name);
    if |name| >= 3 {
      assert s[|s| - 3..] == name[|name| - 3..];
    } else if |s| >= 3 {
      assert s[|prefix|] == '/';
      assert s[|s| - 3..][|prefix| - (|s| - 3)] == '/';
      assert '/' !in ".py";
    }
  }

  /** The copy pass: one new entry per old entry, in the same order, each
      made from the content read back under the entry's name. */
  method CopyPass(zip: seq<Entry>, prefix: string, libraries: seq<string>, saveNonCode: bool)
    returns (copied: seq<Entry>)
    ensures |copied| == |zip|
    ensures forall i :: 0 <= i < |zip| ==>
              copied[i] == Relocated(zip[i].name, ReadBack(zip, i), prefix, libraries, saveNonCode)
  {
    copied := [];
    for k := 0 to |zip|
      invariant |copied| == k
      invariant forall i :: 0 <= i < k ==>
                  copied[i] == Relocated(zip[i].name, ReadBack(zip, i), prefix, libraries, saveNonCode)
    {
      var oldFilename := zip[k].name;
      assert Names(zip)[k] == oldFilename;
      var content := Read(zip, oldFilename).value;
      var newName := Relocate(prefix, oldFilename);
      if !EndsWith(newName, ".py") && saveNonCode {
        copied := copied + [Entry(newName, content)];
      } else {
        var s := FixAllImports(content, libraries, PrefixedName(prefix), BareName);
        copied := copied + [Entry(newName, s)];
      }
    }
  }

  /** A relocated name starts with the prefix directory: its first segment is
      the prefix, and the rest of its segments are those of the old name. */
  lemma RelocatedSegments(prefix: string, name: string)
    requires '/' !in prefix
    ensures Split(Relocate(prefix, name), "/") == [prefix] + Split(name, "/")
  {
    assert Relocate(prefix, name) == prefix + ['/'] + name;
    SplitAtFirst(prefix, '/', name);
  }

  /** Two archives made unique under different prefixes share no entry name,
      which is what lets them be loaded side by side; under one prefix, distinct
      old names stay distinct. */
  lemma RelocateInjective(p: string, a: string, q: string, b: string)
    requires '/' !in p && '/' !in q
    ensures Relocate(p, a) == Relocate(q, b) <==> p == q && a == b
  {
    RelocatedSegments(p, a);
    RelocatedSegments(q, b);
    if Relocate(p, a) == Relocate(q, b) {
      assert p == Split(Relocate(p, a), "/")[0];
      assert |Relocate(p, a)| == |Relocate(q, b)|;
      assert a == Relocate(p, a)[|p| + 1..];
    }
  }

  /** The marker of the directory made of the first `i` segments. */
  function MarkerAt(parts: seq<string>, i: nat): string
    requires i <= |parts|
  {
    Join("/", parts[..i] + [InitName])
  }

  /** The markers one `.py` name asks for: with segments `p[0..n-1]`, the
      marker of `p[0]/…/p[i-1]` for every 1 <= i <= n-2, that is the prefix
      directory and every deeper ancestor except the file's own directory. */
  function MarkersOf(name: string): set<string> {
    var parts := Split(name, "/");
    set i | 1 <= i <= |parts| - 2 :: MarkerAt(parts, i)
  }

  /** `necessary_inits`: the markers asked for by the `.py` names. */
  function RequiredMarkers(names: seq<string>): set<string>
    decreases |names|
  {
    if |names| == 0 then {}
    else
      var last := names[|names| - 1];
      RequiredMarkers(names[..|names| - 1]) + (if EndsWith(last, ".py") then MarkersOf(last) else {})
  }

  /** The marker pass appends to the copied entries exactly the required
      markers that are not already there, each once and empty. */
  ghost predicate MarkersAppended(copied: seq<Entry>, out: seq<Entry>) {
    && |copied| <= |out|
    && out[..|copied|] == copied
    && NoDuplicates(Names(out[|copied|..]))
    && (forall k :: |copied| <= k < |out| ==> out[k].content == [])
    && (forall m :: m in Names(out[|copied|..])
                  <==> m in RequiredMarkers(Names(copied)) && m !in Names(copied))
  }

  /** The first loop of the marker pass: collects `necessary_inits`. */
  method CollectMarkers(newzipFiles: seq<string>) returns (necessaryInits: set<string>)
    ensures necessaryInits == RequiredMarkers(newzipFiles)
  {
    necessaryInits := {};
    for k := 0 to |newzipFiles|
      invariant necessaryInits == RequiredMarkers(newzipFiles[..k])
    {
      var file := newzipFiles[k];
      assert newzipFiles[..k + 1][..k] == newzipFiles[..k];
      if EndsWith(file, ".py") {
        var allParts := Split(file, "/");
        var i := 1;
        while i < |allParts| - 1
          invariant 1 <= i
          invariant necessaryInits == RequiredMarkers(newzipFiles[..k])
                      + (set j | 1 <= j < i && j <= |allParts| - 2 :: MarkerAt(allParts, j))
        {
          ghost var before := set j | 1 <= j < i && j <= |allParts| - 2 :: MarkerAt(allParts, j);
          assert (set j | 1 <= j < i + 1 && j <= |allParts| - 2 :: MarkerAt(allParts, j))
              == before + {MarkerAt(allParts, i)};
          necessaryInits := necessaryInits + {Join("/", allParts[..i] + [InitName])};
          i := i + 1;
        }
        assert (set j | 1 <= j < i && j <= |allParts| - 2 :: MarkerAt(allParts, j)) == MarkersOf(file);
      }
    }
    assert newzipFiles[..|newzipFiles|] == newzipFiles;
  }

  /** The marker pass of `create_unique_zip`. The markers are written in the
      unspecified iteration order of a Python set. */
  method MarkerPass(copied: seq<Entry>) returns (out: seq<Entry>)
    ensures MarkersAppended(copied, out)
  {
    var newzipFiles := Names(copied);
    var necessaryInits := CollectMarkers(newzipFiles);
    out := copied;
    ghost var added: seq<Entry> := [];
    var remaining := necessaryInits;
    while remaining != {}
      invariant out == copied + added
      invariant MarkerProgress(newzipFiles, necessaryInits, remaining, added)
      decreases |remaining|
    {
      var init :| init in remaining;
      MarkerStep(newzipFiles, necessaryInits, remaining, added, init);
      if init !in newzipFiles {
        out := out + [Entry(init, [])];
        added := added + [Entry(init, [])];
      }
      remaining := remaining - {init};
    }
    MarkerPassDone(copied, added);
  }

  /** The invariant of the second marker loop: the markers written so far are
      distinct and empty, and they are the markers already taken from
      `remaining` that the archive did not hold. */
  ghost predicate MarkerProgress(files: seq<string>, inits: set<string>, remaining: set<string>,
                                 added: seq<Entry>)
  {
    && remaining <= inits
    && NoDuplicates(Names(added))
    && (forall k :: 0 <= k < |added| ==> added[k].content == [])
    && (forall m :: m in Names(added) <==> m in inits && m !in remaining && m !in files)
  }

  /** One marker taken from `remaining`, written when the archive lacks it. */
  lemma MarkerStep(files: seq<string>, inits: set<string>, remaining: set<string>,
                   added: seq<Entry>, init: string)
    requires MarkerProgress(files, inits, remaining, added) && init in remaining
    ensures init !in files ==> MarkerProgress(files, inits, remaining - {init}, added + [Entry(init, [])])
    ensures init in files ==> MarkerProgress(files, inits, remaining - {init}, added)
  {
    if init !in files {
      NamesOfConcat(added, [Entry(init, [])]);
      NoDuplicatesConcat(Names(added), [init]);
    }
  }

  /** Once `remaining` is empty, the markers written are the ones asked for. */
  lemma MarkerPassDone(copied: seq<Entry>, added: seq<Entry>)
    requires MarkerProgress(Names(copied), RequiredMarkers(Names(copied)), {}, added)
    ensures MarkersAppended(copied, copied + added)
  {
    var out := copied + added;
    assert out[..|copied|] == copied && out[|copied|..] == added;
  }

  /** A marker belongs to `necessary_inits` exactly when some `.py` name asks for it. */
  lemma {:induction false} RequiredMarkersMembers(names: seq<string>, m: string)
    ensures m in RequiredMarkers(names)
        <==> exists k :: 0 <= k < |names| && EndsWith(names[k], ".py") && m in MarkersOf(names[k])
    decreases |names|
  {
    if |names| > 0 {
      var init := names[..|names| - 1];
      RequiredMarkersMembers(init, m);
      assert forall k :: 0 <= k < |init| ==> init[k] == names[k];
    }
  }

  /** The segments of a marker: those of its directory, then `__init__.py`. */
  lemma MarkerSegments(parts: seq<string>, i: nat)
    requires 1 <= i <= |parts|
    requires forall k :: 0 <= k < |parts| ==> '/' !in parts[k]
    ensures Split(MarkerAt(parts, i), "/") == parts[..i] + [InitName]
  {
    var q := parts[..i] + [InitName];
    assert forall k :: 0 <= k < |q| ==> '/' !in q[k] by {
      assert '/' !in InitName;
    }
    SplitJoin(q, '/');
  }

  /** Every marker is itself a `.py` name: it ends in `/__init__.py`. */
  lemma MarkerIsInitFile(parts: seq<string>, i: nat)
    requires 1 <= i <= |parts|
    ensures MarkerAt(parts, i) == Join("/", parts[..i]) + "/" + InitName
    ensures EndsWith(MarkerAt(parts, i), ".py")
  {
    JoinSnoc("/", parts[..i], InitName);
    var m := MarkerAt(parts, i);
    assert m[|m| - 3..] == InitName[|InitName| - 3..];
  }

  /** The markers a marker would ask for are already asked for by the name
      that produced it: the marker set needs no second round. */
  lemma MarkerClosure(name: string, m: string)
    requires m in MarkersOf(name)
    ensures EndsWith(m, ".py")
    ensures MarkersOf(m) <= MarkersOf(name)
  {
    var parts := Split(name, "/");
    var i :| 1 <= i <= |parts| - 2 && m == MarkerAt(parts, i);
    SplitPartsFree(name, '/');
    MarkerSegments(parts, i);
    MarkerIsInitFile(parts, i);
    var q := parts[..i] + [InitName];
    forall m2 | m2 in MarkersOf(m)
      ensures m2 in MarkersOf(name)
    {
      var j :| 1 <= j <= |q| - 2 && m2 == MarkerAt(q, j);
      assert q[..j] == parts[..j];
      assert m2 == MarkerAt(parts, j);
    }
  }

  /** The file's own directory never gets a marker. */
  lemma OwnDirectoryNotMarked(name: string)
    requires |Split(name, "/")| >= 2
    ensures MarkerAt(Split(name, "/"), |Split(name, "/")| - 1) !in MarkersOf(name)
  {
    var parts := Split(name, "/");
    var n := |parts|;
    SplitPartsFree(name, '/');
    MarkerSegments(parts, n - 1);
    forall i | 1 <= i <= n - 2
      ensures MarkerAt(parts, i) != MarkerAt(parts, n - 1)
    {
      MarkerSegments(parts, i);
    }
  }

  /** Every marker of a relocated name lies inside the prefix directory. */
  lemma MarkersUnderPrefix(prefix: string, name: string, m: string)
    requires '/' !in prefix
    requires m in MarkersOf(Relocate(prefix, name))
    ensures StartsWith(m, prefix + "/")
  {
    var parts := Split(Relocate(prefix, name), "/");
    RelocatedSegments(prefix, name);
    var i :| 1 <= i <= |parts| - 2 && m == MarkerAt(parts, i);
    var q := parts[..i] + [InitName];
    assert |q| >= 2 && q[0] == prefix;
    assert m == prefix + "/" + Join("/", q[1..]);
  }

  /** A file two levels below the prefix asks for the prefix's own marker. */
  lemma PrefixMarkerRequired(prefix: string, dir: string, rest: string)
    requires '/' !in prefix && '/' !in dir
    ensures prefix + "/" + InitName in MarkersOf(Relocate(prefix, dir + "/" + rest))
  {
    var parts := Split(Relocate(prefix, dir + "/" + rest), "/");
    RelocatedSegments(prefix, dir + "/" + rest);
    assert dir + "/" + rest == dir + ['/'] + rest;
    SplitAtFirst(dir, '/', rest);
    assert |parts| >= 3;
    assert parts[..1] + [InitName] == [prefix, InitName];
    assert [prefix, InitName][1..] == [InitName];
    assert Join("/", [prefix, InitName]) == prefix + "/" + Join("/", [InitName]);
    assert MarkerAt(parts, 1) == prefix + "/" + InitName;
    assert MarkerAt(parts, 1) in MarkersOf(Relocate(prefix, dir + "/" + rest));
  }

  /** After the marker pass every `.py` name of the archive, markers included,
      finds all of its markers in the archive. */
  lemma MarkersComplete(copied: seq<Entry>, out: seq<Entry>)
    requires MarkersAppended(copied, out)
    ensures forall n :: n in Names(out) && EndsWith(n, ".py") ==> MarkersOf(n) <= (set x | x in Names(out))
  {
    var names := Names(out);
    var added := out[|copied|..];
    assert out == copied + added;
    NamesOfConcat(copied, added);
    forall n | n in names && EndsWith(n, ".py")
      ensures MarkersOf(n) <= (set x | x in names)
    {
      if n in Names(copied) {
        var k :| 0 <= k < |Names(copied)| && Names(copied)[k] == n;
        forall m | m in MarkersOf(n)
          ensures m in names
        {
          RequiredMarkersMembers(Names(copied), m);
        }
      } else {
        assert n in Names(added);
        RequiredMarkersMembers(Names(copied), n);
        var k :| 0 <= k < |Names(copied)| && EndsWith(Names(copied)[k], ".py")
                 && n in MarkersOf(Names(copied)[k]);
        MarkerClosure(Names(copied)[k], n);
        forall m | m in MarkersOf(n)
          ensures m in names
        {
          RequiredMarkersMembers(Names(copied), m);
        }
      }
    }
  }

  /** The marker pass keeps the names of the archive distinct. */
  lemma MarkersKeepNamesDistinct(copied: seq<Entry>, out: seq<Entry>)
    requires NoDuplicates(Names(copied))
    requires MarkersAppended(copied, out)
    ensures NoDuplicates(Names(out))
  {
    var added := out[|copied|..];
    assert out == copied + added;
    NamesOfConcat(copied, added);
    NoDuplicatesConcat(Names(copied), Names(added));
  }

  /** The first `|zip|` entries of `out` are the copy pass's output. */
  ghost predicate CopiedFrom(zip: seq<Entry>, prefix: string, libraries: seq<string>,
                             saveNonCode: bool, out: seq<Entry>)
  {
    && |zip| <= |out|
    && forall i :: 0 <= i < |zip| ==> out[i] == Relocated(zip[i].name, ReadBack(zip, i), prefix, libraries, saveNonCode)
  }

  /** Two entries of the same name are copied alike: both read back the
      content of the last of them. */
  lemma SameNameCopiedAlike(zip: seq<Entry>, prefix: string, libraries: seq<string>,
                            saveNonCode: bool, out: seq<Entry>, i: nat, j: nat)
    requires CopiedFrom(zip, prefix, libraries, saveNonCode, out)
    requires i < |zip| && j < |zip| && zip[i].name == zip[j].name
    ensures out[i] == out[j]
  {
    assert ReadBack(zip, i) == ReadBack(zip, j);
  }

  /** An entry that no later entry shadows is copied from its own content. */
  lemma UnshadowedCopy(zip: seq<Entry>, prefix: string, libraries: seq<string>,
                       saveNonCode: bool, out: seq<Entry>, i: nat)
    requires CopiedFrom(zip, prefix, libraries, saveNonCode, out)
    requires i < |zip|
    requires forall j :: i < j < |zip| ==> zip[j].name != zip[i].name
    ensures out[i] == Relocated(zip[i].name, zip[i].content, prefix, libraries, saveNonCode)
  {
    ReadUnshadowed(zip, i);
  }

  /** Two non-code entries of one name, copied verbatim: both copies carry
      the second entry's content, and the first entry's content is lost. */
  lemma RepeatedNameReadsLast(name: string, first: string, second: string, prefix: string,
                              libraries: seq<string>, out: seq<Entry>)
    requires !EndsWith(name, ".py")
    requires CopiedFrom([Entry(name, first), Entry(name, second)], prefix, libraries, true, out)
    ensures out[0] == Entry(Relocate(prefix, name), second)
    ensures out[1] == Entry(Relocate(prefix, name), second)
  {
    var zip := [Entry(name, first), Entry(name, second)];
    ReadUnshadowed(zip, 1);
    SameNameCopiedAlike(zip, prefix, libraries, true, out, 0, 1);
  }

  /** The names of the archive `create_unique_zip` writes: the input's
      names relocated, in order, then the markers the marker pass adds. */
  ghost predicate UniqueNames(zip: seq<Entry>, prefix: string, out: seq<Entry>) {
    && |zip| <= |out|
    && (forall i :: 0 <= i < |zip| ==> Names(out)[i] == Relocate(prefix, zip[i].name))
    && MarkersAppended(out[..|zip|], out)
  }

  /** The copied entries keep the input's names, relocated, in order. */
  lemma CopiedNames(zip: seq<Entry>, prefix: string, libraries: seq<string>,
                    saveNonCode: bool, out: seq<Entry>)
    requires UniqueZipAsWritten(zip, prefix, libraries, saveNonCode, out)
    ensures UniqueNames(zip, prefix, out)
  {
    forall i | 0 <= i < |zip|
      ensures Names(out)[i] == Relocate(prefix, zip[i].name)
    {
      assert out[i] == Relocated(zip[i].name, ReadBack(zip, i), prefix, libraries, saveNonCode);
    }
  }

  /** The archive `create_unique_zip` writes as the code stands: the copy
      pass, then the marker pass, unconditionally. */
  ghost predicate UniqueZipAsWritten(zip: seq<Entry>, prefix: string, libraries: seq<string>,
                                     saveNonCode: bool, out: seq<Entry>)
  {
    CopiedFrom(zip, prefix, libraries, saveNonCode, out) && MarkersAppended(out[..|zip|], out)
  }

  /** `create_unique_zip` as written. Its `add_init` parameter is accepted and
      never read: the markers are added whatever it says. `libraries` is the
      list the imports were rewritten with. */
  method CreateUniqueZip(zip: seq<Entry>, prefix: Option<string>, timestamp: string,
                         libraryNames: Option<seq<string>>, saveNonCode: bool, addInit: bool,
                         loads: string -> seq<string>)
    returns (out: seq<Entry>, ghost libraries: seq<string>)
    ensures ResolvedLibraries(zip, libraryNames, loads, libraries)
    ensures UniqueZipAsWritten(zip, EffectivePrefix(prefix, timestamp), libraries, saveNonCode, out)
    ensures |zip| <= |out|
    ensures forall i :: 0 <= i < |zip| ==> out[i].name == Relocate(EffectivePrefix(prefix, timestamp), zip[i].name)
  {
    var p := EffectivePrefix(prefix, timestamp);
    var names := ResolveLibraryNames(zip, libraryNames, loads);
    libraries := names;
    var copied := CopyPass(zip, p, names, saveNonCode);
    out := MarkerPass(copied);
    assert out[..|zip|] == copied;
  }

  /** `create_unique_zip` with `add_init` taken into account: the marker pass
      runs only when it is set. */
  method CreateUniqueZipHonouringAddInit(zip: seq<Entry>, prefix: Option<string>, timestamp: string,
                                         libraryNames: Option<seq<string>>, saveNonCode: bool,
                                         addInit: bool, loads: string -> seq<string>)
    returns (out: seq<Entry>, ghost libraries: seq<string>)
    ensures ResolvedLibraries(zip, libraryNames, loads, libraries)
    ensures addInit ==> UniqueZipAsWritten(zip, EffectivePrefix(prefix, timestamp), libraries, saveNonCode, out)
    ensures !addInit ==> CopiedFrom(zip, EffectivePrefix(prefix, timestamp), libraries, saveNonCode, out)
    ensures !addInit ==> |out| == |zip|
    ensures |zip| <= |out|
    ensures forall i :: 0 <= i < |zip| ==> out[i].name == Relocate(EffectivePrefix(prefix, timestamp), zip[i].name)
  {
    var p := EffectivePrefix(prefix, timestamp);
    var names := ResolveLibraryNames(zip, libraryNames, loads);
    libraries := names;
    var copied := CopyPass(zip, p, names, saveNonCode);
    if addInit {
      out := MarkerPass(copied);
      assert out[..|zip|] == copied;
    } else {
      out := copied;
    }
  }

  /** A file inside a directory makes the marker pass write the prefix's own
      `__init__.py`. */
  lemma PrefixMarkerWritten(prefix: string, dir: string, rest: string, content: string,
                            libraries: seq<string>, saveNonCode: bool, out: seq<Entry>)
    requires '/' !in prefix && '/' !in dir && EndsWith(rest, ".py")
    requires UniqueZipAsWritten([Entry(dir + "/" + rest, content)], prefix, libraries, saveNonCode, out)
    ensures Entry(prefix + "/" + InitName, []) in out
  {
    var zip := [Entry(dir + "/" + rest, content)];
    var copied := out[..1];
    var marker := prefix + "/" + InitName;
    PrefixMarkerRequired(prefix, dir, rest);
    CodeSuffixUnderPrefix(dir, rest);
    CodeSuffixUnderPrefix(prefix, dir + "/" + rest);
    assert Names(copied) == [Relocate(prefix, dir + "/" + rest)];
    assert marker in RequiredMarkers(Names(copied));
    assert '/' in dir + "/" + rest && '/' !in InitName;
    RelocateInjective(prefix, InitName, prefix, dir + "/" + rest);
    assert marker in Names(out[1..]);
    var k :| 0 <= k < |out[1..]| && Names(out[1..])[k] == marker;
    assert out[1 + k] == Entry(marker, []);
  }

  /** As written, asking for no markers still yields `p/__init__.py` for an
      archive holding `pkg/mod.py`. */
  lemma AddInitIgnored(timestamp: string, libraries: seq<string>, out: seq<Entry>)
    requires UniqueZipAsWritten([Entry("pkg/mod.py", [])], EffectivePrefix(Some("p"), timestamp),
                                libraries, true, out)
    ensures Entry("p/__init__.py", []) in out
  {
    assert "pkg" + "/" + "mod.py" == "pkg/mod.py";
    assert "p" + "/" + InitName == "p/__init__.py";
    assert EndsWith("mod.py", ".py");
    PrefixMarkerWritten("p", "pkg", "mod.py", [], libraries, true, out);
  }

  /** With `add_init` honoured and unset, the archive holds the copies and
      nothing else: every name is an input name under the prefix, so the
      prefix gets no `__init__.py` unless the input had one at its top. */
  lemma AddInitHonoured(zip: seq<Entry>, prefix: string, libraries: seq<string>,
                        saveNonCode: bool, out: seq<Entry>)
    requires '/' !in prefix
    requires CopiedFrom(zip, prefix, libraries, saveNonCode, out) && |out| == |zip|
    ensures forall n :: n in Names(out) <==> exists f :: f in Names(zip) && n == Relocate(prefix, f)
    ensures InitName !in Names(zip) ==> Relocate(prefix, InitName) !in Names(out)
  {
    forall n
      ensures n in Names(out) <==> exists f :: f in Names(zip) && n == Relocate(prefix, f)
    {
      if n in Names(out) {
        var k :| 0 <= k < |out| && Names(out)[k] == n;
        assert out[k] == Relocated(zip[k].name, ReadBack(zip, k), prefix, libraries, saveNonCode);
        assert Names(zip)[k] == zip[k].name;
      }
      if exists f :: f in Names(zip) && n == Relocate(prefix, f) {
        var f :| f in Names(zip) && n == Relocate(prefix, f);
        var k :| 0 <= k < |zip| && Names(zip)[k] == f;
        assert out[k] == Relocated(zip[k].name, ReadBack(zip, k), prefix, libraries, saveNonCode);
        assert Names(out)[k] == n;
      }
    }
    if Relocate(prefix, InitName) in Names(out) {
      var f :| f in Names(zip) && Relocate(prefix, InitName) == Relocate(prefix, f);
      RelocateInjective(prefix, InitName, prefix, f);
    }
  }

  /** The archive `create_unique_zip` writes: when the input's names are
      distinct and the prefix is a single directory, the output's names are
      distinct, all lie inside the prefix directory, and every `.py` name finds
      its markers in the archive. */
  lemma UniqueArchiveShape(zip: seq<Entry>, prefix: string, libraries: seq<string>,
                           saveNonCode: bool, out: seq<Entry>)
    requires '/' !in prefix
    requires NoDuplicates(Names(zip))
    requires UniqueZipAsWritten(zip, prefix, libraries, saveNonCode, out)
    ensures NoDuplicates(Names(out))
    ensures forall n :: n in Names(out) ==> StartsWith(n, prefix + "/")
    ensures forall n :: n in Names(out) && EndsWith(n, ".py") ==> MarkersOf(n) <= (set x | x in Names(out))
  {
    CopiedNames(zip, prefix, libraries, saveNonCode, out);
    UniqueArchiveUnderPrefix(zip, prefix, out);
    var copied := out[..|zip|];
    forall i, j | 0 <= i < j < |copied|
      ensures Names(copied)[i] != Names(copied)[j]
    {
      RelocateInjective(prefix, zip[i].name, prefix, zip[j].name);
    }
    MarkersKeepNamesDistinct(copied, out);
    MarkersComplete(copied, out);
  }

  /** Every name of the archive `create_unique_zip` writes lies inside the
      prefix directory. */
  lemma UniqueArchiveUnderPrefix(zip: seq<Entry>, prefix: string, out: seq<Entry>)
    requires '/' !in prefix
    requires UniqueNames(zip, prefix, out)
    ensures forall n :: n in Names(out) ==> StartsWith(n, prefix + "/")
  {
    var copied := out[..|zip|];
    var added := out[|zip|..];
    assert out == copied + added;
    NamesOfConcat(copied, added);
    forall n | n in Names(out)
      ensures StartsWith(n, prefix + "/")
    {
      if n in Names(copied) {
        var k :| 0 <= k < |copied| && Names(copied)[k] == n;
        assert Names(copied)[k] == Names(out)[k];
        assert n == prefix + "/" + zip[k].name;
        assert n[..|prefix + "/"|] == prefix + "/";
      } else {
        assert n in Names(added);
        RequiredMarkersMembers(Names(copied), n);
        var k :| 0 <= k < |copied| && EndsWith(Names(copied)[k], ".py") && n in MarkersOf(Names(copied)[k]);
        assert Names(copied)[k] == Names(out)[k] == Relocate(prefix, zip[k].name);
        MarkersUnderPrefix(prefix, zip[k].name, n);
      }
    }
  }
}
