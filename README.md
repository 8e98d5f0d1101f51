# codesave, modelled in Dafny

codesave snapshots a Python codebase into a zip archive. It can then turn
such an archive into a *unique* archive. There every file sits under one
prefix directory (`codebase_<timestamp>` by default) and every import of a
packed library is rewritten to go through that prefix. Several snapshots,
or several versions of one library, can then be imported side by side.

This project models the core of that pipeline and proves properties of it:

- `Strings`: the Python string operations the code is built from
  (`startswith`, `endswith`, `in`, `str.replace`, `str.split`, `str.join`),
  with the facts the rest of the model needs about them.
- `Collections`: `list(set(...))`, whose order Python leaves open. The model
  picks the order with a choice and proves only what holds for every order.
- `Dicts`: the Python `dict` of the routines. Keys keep the place of their
  first insertion and the last write wins. `update` is proved to be a
  right-biased union.
- `Archive`: a zip archive as an ordered list of named entries.
  `zip.read` returns the entry written last under a name.
- `LibraryNames`: `_get_library_names`, the libraries an archive's names
  announce.
- `FileTree`: a directory tree as `Path.iterdir` and `glob` list it, with
  the names `glob` wildcards skip (those starting with a dot).
- `ArchiveBuilder`: the archive step of `create_zip`. The recursive glob
  of the staging directory lists the directory itself, then every visible
  file and subdirectory below it. Each listed path that no ignore pattern
  flags is written under its path relative to the staging directory, and
  the `library_names.json` manifest follows.
- `ImportRewriter`: `_fix_all_imports`, a fold of literal `str.replace`
  calls, three per library. `RewriterExamples` pins its behaviour on
  concrete lines. A dotted import is moved under the prefix. `from L import
  x`, a line-final `import L`, and `import Lmore` are left alone. The order
  of the libraries can change the result.
- `Namespacer`: `create_unique_zip`. It resolves the library list, relocates
  and rewrites every entry, then adds the missing `__init__.py` package
  markers.
- `ZipLoader`: the `ZipCodebase` class. `Open` is the constructor: it
  optionally makes the archive unique, reads the library name, puts the
  archive on `sys.path` and computes `valid_libraries`. `ImportModule`,
  `Import` and `FromImport` model `import_module`, `_import` and
  `_from_import` against an abstract import system.
- `Routines`: `_get_python_libraries`, and `checkpoint_codebase` up to its
  call of `create_zip`. The merge of the library roots and the file list
  are modelled, and the call itself is returned as a `ZipRequest`.

Four behaviours of the code shape the model:

- The import rewrite depends on the order of the libraries.
  The replacements run one after the other over the text that earlier
  replacements produced. `RewriterExamples.LibraryOrderMatters` shows a line
  that comes out prefixed twice or once depending on the order.
- The marker pass asks for markers of the directories made of segments
  `1 .. n-2` of each `.py` name. For a relocated name that includes the
  prefix directory's own `prefix/__init__.py`, so the archive root itself
  becomes a package (`Namespacer.PrefixMarkerRequired`).
- The copy pass of `create_unique_zip` reads each entry's content back by
  name. When an archive holds several entries of one name, every copy gets
  the content of the last of them (`Namespacer.RepeatedNameReadsLast`).
- The ignore patterns of `create_zip` see the full glob path, not the
  archive name, and the glob lists directories as well as files. Every
  archive `create_zip` writes with the default pattern starts with the
  entry `./` of the staging directory (`ArchiveBuilder.RootEntryFirst`).
  A directory entry `d/` is dropped when a pattern flags its path
  (`ArchiveBuilder.DirectoryFilteredByPath`). The default pattern flags
  only names ending in `.pyc`, although the docstring of `create_zip`
  (codesave/base.py:39) speaks of pycache folders: the bytecode files of a
  `__pycache__` directory are left out, but its entry `__pycache__/` is
  still written (`ArchiveBuilder.PycacheDirectoryWritten`).

Clocks, temporary names, file contents decoded as UTF-8, and the
`json.dumps`/`json.loads` pair are parameters of the model.

## Model

| member | source | states |
|---|---|---|
| Collections.ListFromSet | codesave/base.py:287-289 | `list(set(...))` lists every element of the set exactly once, and nothing else |
| LibraryNames.LibraryOf | codesave/base.py:288 | the library of a name is its first path segment with `.py` removed, so it never contains `/` |
| LibraryNames.GetLibraryNames | codesave/base.py:279-289 | the result has no repetitions and holds exactly the libraries of the names mentioning `.py`, none containing `/` |
| LibraryNames.LibraryNamesOfConcat | codesave/base.py:288 | the libraries of two name lists together are the union of their libraries |
| LibraryNames.NonCodeNameIgnored | codesave/base.py:288 | a name not mentioning `.py` adds no library |
| LibraryNames.ModuleFileLibrary | codesave/base.py:284-288 | a top-level module file `m.py` is the library `m`, for a name `m` without dots |
| LibraryNames.PackageFileLibrary | codesave/base.py:284-288 | every file under a top-level directory `d` belongs to the library `d`, for a name `d` without dots |
| LibraryNames.LibraryNamesOfOne | codesave/base.py:288 | a single name gives its library when it mentions `.py` and nothing otherwise |
| LibraryNames.LibraryNamesOfTwoAndOne | codesave/base.py:288 | two code names and one other name give exactly the two code names' libraries |
| LibraryNames.LibraryNamesExample | codesave/base.py:284-288 | `a.py`, `pkg/c.py` and `LICENSE` give exactly the libraries `a` and `pkg` |
| LibraryNames.ExampleModule | codesave/base.py:288 | `a.py` is the library `a` |
| LibraryNames.ExamplePackage | codesave/base.py:288 | `pkg/c.py` is the library `pkg` |
| LibraryNames.ExampleNonCode | codesave/base.py:288 | `LICENSE` is not code |
| LibraryNames.InfixCodeSuffixRemoved | codesave/base.py:288 | a single-segment name with `.py` inside is code, and its library is the name with that `.py` cut out |
| LibraryNames.StubFileLibrary | codesave/base.py:288 | every `.py` occurrence is removed, so `stubs.pyi` counts as code and is the library `stubsi` |
| Archive.Names | codesave/base.py:110 | `namelist()` lists the entry names in writing order, one per entry |
| Archive.Read | codesave/base.py:113-114 | `zip.read(name)` fails exactly when no entry has the name, and otherwise returns the content of the entry written last under it |
| Archive.ReadUnshadowed | codesave/base.py:125 | reading the name of an entry that no later entry shares gives that entry's own content |
| ArchiveBuilder.IsPycache | codesave/base.py:13 | the default pattern flags exactly the names ending in `.pyc` |
| ArchiveBuilder.AnyPattern | codesave/base.py:68 | a path is ignored exactly when some ignore pattern flags it |
| ArchiveBuilder.Listing | codesave/base.py:64 | the recursive glob lists the staging directory itself first, as `root/` stored under the name `./` |
| ArchiveBuilder.WalkBelow | codesave/base.py:64 | every path the glob lists below a directory lies below it, and its archive entry is named by its relative path, with a trailing `/` and no content for a directory |
| ArchiveBuilder.WalkFromBelow | codesave/base.py:64 | the same for the paths the glob lists from a given child of a directory on |
| ArchiveBuilder.BelowParent | codesave/base.py:64-72 | a path below a subdirectory lies below its parent, and its name relative to the parent is the subdirectory's name, `/`, then its name relative to the subdirectory |
| ArchiveBuilder.ListingBelow | codesave/base.py:64-72 | every listed path after the staging directory lies below it and is written under its path relative to it, a directory's name ending in `/` |
| ArchiveBuilder.PycacheListing | codesave/base.py:64-72 | the glob of a staging directory holding a directory `d` with one file `f` lists the root, `d`, then `d/f`, stored as `./`, `d/` and `d/f` |
| ArchiveBuilder.Kept | codesave/base.py:65-69 | the filter keeps at most the listed paths, keeps only listed paths no pattern flags, and keeps all of them when no pattern flags any |
| ArchiveBuilder.KeptPrefix | codesave/base.py:65-69 | extending the listing by one path extends the kept paths by that path exactly when no pattern flags it |
| ArchiveBuilder.KeptMembers | codesave/base.py:65-69 | a listed path is written exactly when no pattern flags its glob path, whatever its archive name |
| ArchiveBuilder.KeptFirst | codesave/base.py:65-69 | the filter keeps glob order: an unflagged first path stays first |
| ArchiveBuilder.Entries | codesave/base.py:70-72 | one entry is written per kept path, the entry `zip.write` stores for it, in the same order |
| ArchiveBuilder.WriteKept | codesave/base.py:70-72 | the write loop writes exactly the entries of the kept paths, in glob order |
| ArchiveBuilder.CreateZip | codesave/base.py:63-76 | the archive is the entries of the kept glob paths in glob order, directories included, then the manifest. The manifest records the given library names, or else the libraries of the written names, each once |
| ArchiveBuilder.RootEntryFirst | codesave/base.py:64-72 | unless a pattern flags `root/`, which the default pattern does not, the archive starts with the entry `./` |
| ArchiveBuilder.SuffixBelow | codesave/base.py:13 | a suffix without `/` ends a path below a directory exactly when it ends the relative path |
| ArchiveBuilder.PycacheBelow | codesave/base.py:13 | the default pattern flags a path below the staging directory exactly when its relative path ends in `.pyc` |
| ArchiveBuilder.ListedBelow | codesave/base.py:64 | a listed path after the staging directory is listed and lies below the staging directory |
| ArchiveBuilder.DefaultIgnoresBytecode | codesave/base.py:64-69 | with the default pattern, a listed path below the staging directory is left out exactly when its relative path ends in `.pyc`, for a directory as for a file |
| ArchiveBuilder.DirectoryFilteredByPath | codesave/base.py:64-72 | a pattern that flags a directory's glob path drops its entry `d/`, leaving only `./` |
| ArchiveBuilder.PycacheDirectoryWritten | codesave/base.py:64-72 | with the default pattern, a directory holding only a `.pyc` file is still written as `d/` while the file is left out |
| ArchiveBuilder.ManifestRoundTrip | codesave/base.py:111-115 | the manifest is written last, so reading it back gives the recorded library list whenever `loads` inverts `dumps` |
| ImportRewriter.FixAllImports | codesave/base.py:250-268 | the loops build the three changes per library in order and fold `str.replace` over them |
| ImportRewriter.AllChangesNonEmpty | codesave/base.py:258-263 | every generated pattern is non-empty |
| ImportRewriter.AllChangesMembers | codesave/base.py:258-263 | a change is generated exactly when it is one of the three changes of some library |
| ImportRewriter.ApplyAbsent | codesave/base.py:265-267 | replacements whose patterns all miss the text leave it unchanged |
| ImportRewriter.ApplyIdentity | codesave/base.py:265-267 | replacements mapping each pattern to itself leave the text unchanged |
| ImportRewriter.ApplyAppend | codesave/base.py:265-267 | folding two change lists in turn is folding their concatenation |
| ImportRewriter.AllChangesCons | codesave/base.py:257-263 | the changes of `[L] + rest` are L's three changes followed by those of `rest` |
| ImportRewriter.RewriteOneLibrary | codesave/base.py:257-268 | for one library the rewrite is `import L `, then `import L.`, then `from L.` replaced in that order |
| ImportRewriter.RewriteLibraryByLibrary | codesave/base.py:257-268 | the later libraries rewrite the text the first library's replacements produced |
| ImportRewriter.RewriteWithoutImports | codesave/base.py:250-268 | text containing none of the libraries' patterns is returned unchanged |
| ImportRewriter.RewriteToSameNames | codesave/base.py:250-268 | mapping every library to its own old form changes nothing |
| ImportRewriter.DottedImportRewritten | codesave/base.py:262 | `import L.rest` becomes `import prefix.L.rest` when the rest holds no further pattern of L |
| ImportRewriter.DottedSpaceMissed | codesave/base.py:261 | in a dotted import the `import L ` replacement finds nothing |
| ImportRewriter.DottedDotHit | codesave/base.py:262 | in a dotted import the `import L.` replacement rewrites the head |
| ImportRewriter.DottedFromMissed | codesave/base.py:263 | in a rewritten dotted import the `from L.` replacement finds nothing |
| ImportRewriter.LongerNameKept | codesave/base.py:261-263 | `import L<t>` with `t` continuing the name is another module and is not rewritten |
| ImportRewriter.FromImportKept | codesave/base.py:263 | `from L import rest` matches no pattern and is not rewritten |
| ImportRewriter.FinalBareImportKept | codesave/base.py:261 | a line-final `import L` is not rewritten, as the pattern needs a trailing space |
| RewriterExamples.DottedImportExample | codesave/base.py:261-263 | `import foo.bar` becomes `import ns.foo.bar` |
| RewriterExamples.LongerNameExample | codesave/base.py:261-263 | `import foobar` is left alone for library `foo` |
| RewriterExamples.FromImportTailNoImport | codesave/base.py:261-262 | `foo import x` holds neither import pattern of `foo` |
| RewriterExamples.FromImportTailNoFrom | codesave/base.py:263 | `foo import x` does not hold `from foo.` |
| RewriterExamples.FromImportExample | codesave/base.py:261-263 | `from foo import x` is left alone for library `foo` |
| RewriterExamples.FinalImportExample | codesave/base.py:261-263 | a line-final `import foo` is left alone |
| RewriterExamples.PrefixFirstLibrary | codesave/base.py:261-263 | with prefix `b`, library `a` turns `import a.x` into `import b.a.x` |
| RewriterExamples.PrefixTwice | codesave/base.py:261-263 | with prefix `b`, library `b` turns `import b.a.x` into `import b.b.a.x` |
| RewriterExamples.NoImportOfOtherLibrary | codesave/base.py:261-263 | `import a.x` holds none of library `b`'s patterns |
| RewriterExamples.LibraryOrderMatters | codesave/base.py:265-267 | libraries `[a, b]` and `[b, a]` with prefix `b` rewrite `import a.x` differently |
| Namespacer.EffectivePrefix | codesave/base.py:105-107 | a given non-empty prefix is kept, and a missing or empty one becomes `codebase_<timestamp>`; the result is never empty |
| Namespacer.ResolveLibraryNames | codesave/base.py:111-117 | the given library list wins, then the manifest read back from the archive, then the libraries inferred from the names |
| Namespacer.Relocated | codesave/base.py:121-135 | an entry moves under the prefix. The content read back for its name is copied when the new name does not end in `.py` and `save_non_code` is set, and is import-rewritten otherwise |
| Namespacer.ReadBack | codesave/base.py:125-127 | the content used for an entry is what `zip.read` returns for its name |
| Namespacer.CodeSuffixUnderPrefix | codesave/base.py:122-124 | relocating a name does not change whether it ends in `.py` |
| Namespacer.CopyPass | codesave/base.py:120-135 | the copy pass writes one relocated entry per input entry, in input order, each made from the content `zip.read` returns for the entry's name |
| Namespacer.SameNameCopiedAlike | codesave/base.py:125-127 | two entries of the same name are copied to identical entries |
| Namespacer.UnshadowedCopy | codesave/base.py:125-127 | an entry no later entry shares a name with is copied from its own content |
| Namespacer.RepeatedNameReadsLast | codesave/base.py:124-125 | two non-code entries of one name, copied verbatim, both carry the second entry's content |
| Namespacer.CopiedNames | codesave/base.py:121-122 | the unique archive starts with the input's names relocated, in order, followed by the markers |
| Namespacer.RelocatedSegments | codesave/base.py:122 | the segments of a relocated name are the prefix followed by the old segments |
| Namespacer.RelocateInjective | codesave/base.py:122 | two relocated names are equal exactly when both prefixes and both names are, so archives under different prefixes share no name |
| Namespacer.CollectMarkers | codesave/base.py:137-145 | the first marker loop collects exactly the markers the `.py` names ask for |
| Namespacer.MarkerPass | codesave/base.py:137-149 | the marker pass keeps the copied entries and appends, once each and empty, exactly the required markers not already present |
| Namespacer.MarkerStep | codesave/base.py:146-148 | writing a marker only when the archive lacks it keeps the written markers distinct, empty, and exactly the missing ones handled so far |
| Namespacer.MarkerPassDone | codesave/base.py:146-148 | once every required marker is handled, the archive is the copied entries followed by exactly the missing markers |
| Namespacer.RequiredMarkersMembers | codesave/base.py:139-145 | a marker is required exactly when some `.py` name asks for it |
| Namespacer.MarkerSegments | codesave/base.py:143-145 | a marker's segments are its directory's segments followed by `__init__.py` |
| Namespacer.MarkerIsInitFile | codesave/base.py:145 | every marker is `<dir>/__init__.py` and so is itself a `.py` name |
| Namespacer.MarkerClosure | codesave/base.py:139-145 | the markers a marker asks for are already asked for by its name, so one pass is enough |
| Namespacer.OwnDirectoryNotMarked | codesave/base.py:144 | the directory holding a file gets no marker from it |
| Namespacer.MarkersUnderPrefix | codesave/base.py:122-145 | every marker of a relocated name lies inside the prefix directory |
| Namespacer.PrefixMarkerRequired | codesave/base.py:144-145 | a file two levels below the prefix asks for `prefix/__init__.py` |
| Namespacer.MarkersComplete | codesave/base.py:137-149 | after the marker pass every `.py` name has all its markers in the archive |
| Namespacer.MarkersKeepNamesDistinct | codesave/base.py:146-149 | the marker pass keeps the archive's names distinct |
| Namespacer.CreateUniqueZip | codesave/base.py:81-150 | the unique archive is the copy pass's output under the effective prefix, followed by the marker pass, with `add_init` ignored. Its first entries are the input's entries relocated, in order, each with the content read back under its name |
| Namespacer.CreateUniqueZipHonouringAddInit | codesave/base.py:88-149 | with `add_init` the result is the archive as written, and without it the copy pass's output alone. Either way it starts with the input's entries relocated, in order |
| Namespacer.PrefixMarkerWritten | codesave/base.py:139-149 | a code file inside a directory makes the archive contain an empty `prefix/__init__.py` |
| Namespacer.AddInitIgnored | codesave/base.py:88 | as written, `pkg/mod.py` under prefix `p` yields `p/__init__.py` whatever `add_init` says |
| Namespacer.AddInitHonoured | codesave/base.py:88 | honouring `add_init = False`, the archive's names are exactly the input's names under the prefix, so the prefix gets no `__init__.py` unless the input had one at its top |
| Namespacer.UniqueArchiveShape | codesave/base.py:108-149 | from an input with distinct names the unique archive has distinct names, all under the prefix, with every `.py` name's markers present |
| Namespacer.UniqueArchiveUnderPrefix | codesave/base.py:120-149 | every name of the unique archive lies inside the prefix directory |
| ZipLoader.SearchPath.InsertFirst | codesave/base.py:193 | `sys.path.insert(0, p)` puts `p` in front of the unchanged old path |
| ZipLoader.MemberList | codesave/base.py:240-241 | a single name becomes a one-item list, and a list is kept |
| ZipLoader.ValidLibrarySet | codesave/base.py:194-202 | the comprehension fails at the first name that mentions `.py` and has no second segment, and with that name |
| ZipLoader.SecondLibrary | codesave/base.py:197 | the library of a unique-archive name is its second segment with `.py` removed |
| ZipLoader.ValidLibrarySetMembers | codesave/base.py:194-202 | `valid_libraries` is computed exactly when every name mentioning `.py` has a second segment. It then holds exactly the second-segment libraries of the names not mentioning `__init__` there |
| ZipLoader.ZipCodebase.Open | codesave/base.py:180-210 | covers each case of the constructor: the archive is made unique or taken as is, an empty archive fails, the archive is put first on the search path, `valid_libraries` fails or holds each valid library once, and an empty list fails when verbose |
| ZipLoader.ZipCodebase.QualifiedName | codesave/base.py:218-219 | the module asked for is `<library_name>.<name>` |
| ZipLoader.ZipCodebase.ImportModule | codesave/base.py:230-236 | `import_module` succeeds exactly when the qualified name resolves, returns that module, and otherwise names what was not found |
| ZipLoader.ZipCodebase.Import | codesave/base.py:216-228 | `_import` succeeds exactly when the full name and, without an alias, its first segment import. It binds the alias to the full module, or else the first segment to the first segment's module |
| ZipLoader.ZipCodebase.FromImportItem | codesave/base.py:244-247 | an item resolves exactly when it is an attribute of the module or `name.item` imports; the attribute wins, and the error names the submodule |
| ZipLoader.ZipCodebase.FromImportBindings | codesave/base.py:243-247 | the items are bound in order under their own names, and all of them are bound unless an error stops the loop |
| ZipLoader.ZipCodebase.FromImport | codesave/base.py:238-247 | a failed module import binds nothing. Otherwise the loop's bindings and error are those of the item-by-item specification |
| ZipLoader.ZipCodebase.BindItems | codesave/base.py:243-247 | the loop binds the items in order, each to its attribute or submodule, and stops at the first that resolves neither way, keeping the earlier bindings |
| ZipLoader.ZipCodebase.FromImportStep | codesave/base.py:243-245 | one more resolved item extends the bindings made so far by that item |
| ZipLoader.ZipCodebase.FromImportStopsAt | codesave/base.py:244-247 | an unresolvable item ends the loop with the bindings made before it and its error |
| ZipLoader.ZipCodebase.FromImportGoesOn | codesave/base.py:243-245 | after an item resolves, the remaining items are bound after it |
| ZipLoader.ZipCodebase.FromImportStops | codesave/base.py:244-247 | a first item that is neither an attribute nor a submodule stops the loop with nothing bound |
| ZipLoader.UniqueArchiveOpens | codesave/base.py:189-202 | a non-empty unique archive is named after its prefix and its `valid_libraries` can be computed |
| ZipLoader.InsidePrefixTwoSegments | codesave/base.py:197-199 | a name inside the prefix directory has a second segment |
| ZipLoader.UniqueCodebaseName | codesave/base.py:180-191 | opened with `make_unique`, a non-empty archive's library name is `codebase_<timestamp>` |
| ZipLoader.ImportPlainName | codesave/base.py:216-228 | `_import(name)` of an undotted name binds the module under its own name |
| ZipLoader.ImportDottedName | codesave/base.py:222-226 | `_import("a.b")` imports `a.b` first, then binds `a` to the top-level package |
| ZipLoader.ImportWithAlias | codesave/base.py:219-221 | with an alias the fully named module is bound under the alias |
| ZipLoader.FromImportAllBound | codesave/base.py:243-245 | when every item resolves, each item is bound, in order, to its attribute or submodule |
| ZipLoader.FromImportFirstFailure | codesave/base.py:243-247 | the first unresolvable item stops the loop, with exactly the items before it bound |
| ZipLoader.RewrittenNameIsQualified | codesave/base.py:131 | opened with `make_unique`, every library of the original archive is in `valid_libraries`, and the module a rewritten import of it names is the one `import_module` resolves for it |
| ZipLoader.CopiedContribution | codesave/base.py:194-202 | a relocated name contributes a valid library exactly when the original name keeps its library, and it contributes that library |
| ZipLoader.MarkerContribution | codesave/base.py:194-202 | a marker contributes only below a library's directory, and then contributes that library |
| ZipLoader.UniqueArchiveLibraries | codesave/base.py:194-202 | opening the unique archive gives exactly the libraries of the original names whose first segment does not mention `__init__` |
| ZipLoader.ContributionFromInput | codesave/base.py:194-202 | every name of the unique archive that contributes a library, copy or marker, contributes the library of some original name |
| ZipLoader.InputContributes | codesave/base.py:194-202 | every original name that keeps its library contributes it through its copy |
| Dicts.Put | codesave/routines.py:15 | storing keeps the dictionary well formed and the existing keys in their places |
| Dicts.Items | codesave/routines.py:34 | `items()` lists one pair per key, in key order |
| Dicts.Values | codesave/routines.py:38 | `values()` lists each key's value, in key order |
| Dicts.PutAllKeys | codesave/routines.py:13-18 | after the stores, the keys are the old keys and the keys the pairs name |
| Dicts.PutAllLastWins | codesave/routines.py:13-18 | a key holds the value of the last pair naming it |
| Dicts.PutAllUntouched | codesave/routines.py:13-18 | a key no pair names keeps its value |
| Dicts.Update | codesave/routines.py:34 | `update` keeps the dictionary well formed and keeps every old key |
| Dicts.UpdateValues | codesave/routines.py:34 | `update` keeps the old keys in front and makes the values a right-biased union |
| Routines.Stem | codesave/routines.py:15 | the stem of a `.py` name is non-empty and followed by `.py` |
| Routines.GlobFindsPySource | codesave/routines.py:17 | a directory holds Python code exactly when the recursive `*.py` glob below it lists some path |
| Routines.GlobFromFindsPySource | codesave/routines.py:17 | the glob lists a path from a given child on exactly when one of those children matches or is a visible directory holding code |
| Routines.LibraryEntry | codesave/routines.py:14-18 | a child contributes exactly when it has suffix `.py` or is a directory holding code. Its path is `parent/name`, and its key is the stem of a `.py` name and the name of a directory |
| Routines.GetPythonLibraries | codesave/routines.py:9-19 | a non-directory fails, and a directory gives the dictionary of its children's entries stored in order |
| Routines.LibraryPairFromChild | codesave/routines.py:13-18 | every stored pair comes from some child |
| Routines.LibraryPairOfChild | codesave/routines.py:13-18 | every child with an entry has its pair stored |
| Routines.RootLibraryKeys | codesave/routines.py:13-18 | a key is a library of the root exactly when some child contributes it |
| Routines.RootLibraryLastWins | codesave/routines.py:13-18 | when children share a key, the last one's path wins |
| Routines.DirectoryWithModuleIsLibrary | codesave/routines.py:16-18 | a directory holding a visible `.py` file is a library under its own name, even when that name is hidden |
| Routines.MergeRoots | codesave/routines.py:32-35 | a successful merge means every root was a directory, and it yields a well-formed dictionary |
| Routines.TopLevelFiles | codesave/routines.py:39-41 | the top-level glob lists exactly the paths of the visible children, at most one per child |
| Routines.CheckpointCodebase | codesave/routines.py:22-50 | the errors come in source order: missing output name, then a non-directory root, then extra libraries. Otherwise the archive request holds the merged libraries' paths, then the main folder's visible entries, with the merged keys as library names |
| Routines.MergeStaysFailed | codesave/routines.py:33-35 | once a root fails, the whole merge fails with that root's error |
| Routines.MainFolderWins | codesave/routines.py:33-35 | the main folder is merged last, so its libraries override the extra roots' and all other libraries keep the extra roots' paths |

## Left out

- File system I/O, `tempfile`, `shutil` copies and `Path.resolve`/`expanduser` are not modelled. Paths are taken as already resolved, the staged tree of `create_zip` is a parameter, and `glob` is modelled as a listing of the matching paths of a given tree, following its hidden-name rule; symbolic links are not modelled.
- `create_zip`'s copy of the inputs into the staging directory (codesave/base.py:44-60) is not modelled; the staged tree is given.
- ArchiveBuilder.CreateZip: the glob's order among the children of one directory is the given listing order, and file metadata (timestamps, permissions) that `zip.write` stores is not modelled.
- `datetime.now()` is the `timestamp` parameter, and `tempfile.mktemp` is the `tmpName` parameter.
- Entry contents are decoded text. The UTF-8 decode and its failure on binary entries that are rewritten (`.py` names, and every name when `save_non_code` is false) are not modelled.
- `json.dumps`/`json.loads` are the `dumps`/`loads` parameters, and a malformed manifest is not modelled.
- Verbose printing is left out. The only print with an effect, the `valid_libraries[0]` of a verbose `ZipCodebase` on an empty list, becomes the error `NoLibraryToShow`.
- `importlib` and `inspect` are replaced by the abstract `Runtime`. The bindings `_import`/`_from_import` would put into the caller's locals are returned instead.
- `_get_library_names` is modelled with its default `index=0` only, the value every caller passes.
- The unreachable code after the `return` of `_fix_all_imports` is not modelled.
- `checkpoint_codebase_for_wandb`, wandb and `pkg_resources` are not part of this model. Neither are `app.py`, the package `__init__.py`, `setup.py` and the tests.
- Routines.CheckpointCodebase: returns the arguments of the `create_zip` call rather than running it.
- Collections.ListFromSet: the order of `list(set(...))` is not modelled, so nothing is proved that depends on it.

## Findings

| source | as written | input that shows it | evidently intended | confidence | as-written member | corrected member |
|---|---|---|---|---|---|---|
| codesave/base.py:88 | `create_unique_zip` accepts `add_init` but never reads it, so the `__init__.py` markers are always added | an archive holding `pkg/mod.py` with prefix `p` and `add_init=False` still gets `p/__init__.py` | markers are added only when `add_init` is true | not executed | Namespacer.AddInitIgnored | Namespacer.CreateUniqueZipHonouringAddInit |
