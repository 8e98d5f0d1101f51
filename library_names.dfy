/** `_get_library_names` (codesave/base.py): the importable libraries of an
    archive, read off its file names. */
module LibraryNames {
  import opened Strings
  import opened Collections

  /** `".py" in f`: the names the comprehension keeps. */
  predicate MentionsPy(f: string) {
    Contains(f, ".py")
  }

  /** `f.split("/")[0].replace(".py", "")`: the first path segment with every
      `.py` removed. It never holds a `/`. */
  function LibraryOf(f: string): (lib: string)
    ensures '/' !in lib
  {
    var first := Split(f, "/")[0];
    SplitPartsFree(f, '/');
    ReplaceKeepsOut(first, ".py", "", '/');
    Replace(first, ".py", "")
  }

  /** The set `_get_library_names` builds: one library per name that mentions
      `.py`; names that do not mention it contribute nothing. */
  function LibraryNameSet(fnames: seq<string>): set<string> {
    set f | f in fnames && MentionsPy(f) :: LibraryOf(f)
  }

  /** `_get_library_names(all_fnames)`: the libraries as a list without
      repetitions, in the unspecified order of a Python set. */
  method GetLibraryNames(allFnames: seq<string>) returns (names: seq<string>)
    ensures NoDuplicates(names)
    ensures forall n :: n in names <==> n in LibraryNameSet(allFnames)
    ensures forall n :: n in names ==> '/' !in n
  {
    names := ListFromSet(LibraryNameSet(allFnames));
  }

  /** The libraries of a concatenation are those of its two halves. */
  lemma LibraryNamesOfConcat(a: seq<string>, b: seq<string>)
    ensures LibraryNameSet(a + b) == LibraryNameSet(a) + LibraryNameSet(b)
  {
    assert forall f :: f in a + b <==> f in a || f in b;
  }

  /** A name without `.py` adds no library. */
  lemma NonCodeNameIgnored(fnames: seq<string>, f: string)
    requires !MentionsPy(f)
    ensures LibraryNameSet(fnames + [f]) == LibraryNameSet(fnames)
  {
    LibraryNamesOfConcat(fnames, [f]);
  }

  /** A top-level module file `m.py` is the library `m`. */
  lemma ModuleFileLibrary(stem: string)
    requires '/' !in stem && '.' !in stem
    ensures MentionsPy(stem + ".py")
    ensures LibraryOf(stem + ".py") == stem
  {
    var f := stem + ".py";
    assert f[|stem|..] == ".py";
    assert StartsWith(f[|stem|..], ".py");
    ContainsAt(f, |stem|, ".py");
    SplitWhole(f, '/');
    ReplaceFirstAt(stem, ".py", [], "");
    assert stem + ".py" + [] == f;
    assert stem + "" + [] == stem;
  }

  /** Every file under a directory `d` belongs to the library `d`. */
  lemma PackageFileLibrary(dir: string, rest: string)
    requires '/' !in dir && '.' !in dir
    ensures LibraryOf(dir + "/" + rest) == dir
  {
    SplitAtFirst(dir, '/', rest);
    assert dir + "/" + rest == dir + ['/'] + rest;
    NotContainsWithoutFirst(dir, ".py");
    ReplaceAbsent(dir, ".py", "");
  }

  /** The libraries of a single name. */
  lemma LibraryNamesOfOne(f: string)
    ensures LibraryNameSet([f]) == if MentionsPy(f) then {LibraryOf(f)} else {}
  {
    assert forall g :: g in [f] <==> g == f;
  }

  /** A module file, a package and a file without code give two libraries. */
  lemma LibraryNamesExample()
    ensures LibraryNameSet(["a.py", "pkg/c.py", "LICENSE"]) == {"a", "pkg"}
  {
    ExampleModule();
    ExamplePackage();
    ExampleNonCode();
    LibraryNamesOfTwoAndOne("a.py", "pkg/c.py", "LICENSE");
  }

  lemma LibraryNamesOfTwoAndOne(x: string, y: string, z: string)
    requires MentionsPy(x) && MentionsPy(y) && !MentionsPy(z)
    ensures LibraryNameSet([x, y, z]) == {LibraryOf(x), LibraryOf(y)}
  {
    assert [x, y, z] == [x] + [y] + [z];
    LibraryNamesOfConcat([x] + [y], [z]);
    LibraryNamesOfConcat([x], [y]);
    LibraryNamesOfOne(x);
    LibraryNamesOfOne(y);
    LibraryNamesOfOne(z);
  }

  lemma ExampleModule()
    ensures MentionsPy("a.py") && LibraryOf("a.py") == "a"
  {
    assert "a" + ".py" == "a.py";
    ModuleFileLibrary("a");
  }

  lemma ExamplePackage()
    ensures MentionsPy("pkg/c.py") && LibraryOf("pkg/c.py") == "pkg"
  {
    assert "pkg" + "/" + "c.py" == "pkg/c.py";
    PackageFileLibrary("pkg", "c.py");
    assert "pkg/c.py"[5..] == ".py";
    ContainsAt("pkg/c.py", 5, ".py");
  }

  lemma ExampleNonCode()
    ensures !MentionsPy("LICENSE")
  {
    assert '.' !in "LICENSE";
    NotContainsWithoutFirst("LICENSE", ".py");
  }

  /** A single-segment name with `.py` inside loses that `.py`: the
      library of `stem.pytail` is `stemtail`. */
  lemma InfixCodeSuffixRemoved(stem: string, tail: string)
    requires '/' !in stem + ".py" + tail && '.' !in stem && !Contains(tail, ".py")
    ensures MentionsPy(stem + ".py" + tail)
    ensures LibraryOf(stem + ".py" + tail) == stem + tail
  {
    var f := stem + ".py" + tail;
    InfixMentioned(stem, ".py", tail);
    SplitWhole(f, '/');
    InfixRemoved(stem, ".py", tail);
  }

  /** A name with the pattern inside contains it. */
  lemma InfixMentioned(stem: string, pat: string, tail: string)
    ensures Contains(stem + pat + tail, pat)
  {
    var f := stem + pat + tail;
    assert f[|stem|..] == pat + tail;
    ContainsAt(f, |stem|, pat);
  }

  /** Removing a pattern that occurs once, after a piece without its first character. */
  lemma InfixRemoved(stem: string, pat: string, tail: string)
    requires |pat| > 0 && pat[0] !in stem && !Contains(tail, pat)
    ensures Replace(stem + pat + tail, pat, "") == stem + tail
  {
    var empty: string := [];
    ReplaceFirstAt(stem, pat, tail, empty);
    ReplaceAbsent(tail, pat, empty);
    assert stem + empty == stem;
  }

  /** Every `.py` is removed, not only a final extension: a stub file
      `stubs.pyi` is taken for the library `stubsi`. */
  lemma StubFileLibrary()
    ensures MentionsPy("stubs.pyi") && LibraryOf("stubs.pyi") == "stubsi"
  {
    assert "stubs" + ".py" + "i" == "stubs.pyi";
    assert "stubs" + "i" == "stubsi";
    assert '/' !in "stubs.pyi" && '.' !in "stubs";
    NotContainsShort("i", ".py");
    InfixCodeSuffixRemoved("stubs", "i");
  }
}
