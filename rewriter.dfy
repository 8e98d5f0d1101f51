/** `_fix_all_imports` (codesave/base.py): the textual import rewriter.
    For every library it builds three literal replacements and then applies
    all of them, one after the other, with `str.replace`. */
module ImportRewriter {
  import opened Strings

  /** One `(old_string, new_string)` pair of `all_changes`. */
  datatype Change = Change(from: string, to: string)

  /** The three pairs built for one library with old form `op` and new form `np`. */
  function LibraryChanges(op: string, np: string): seq<Change> {
    [ Change("import " + op + " ", "import " + np + " "),
      Change("import " + op + ".", "import " + np + "."),
      Change("from " + op + ".", "from " + np + ".") ]
  }

  /** `all_changes` after the first loop: the pairs of every library, in
      library order. */
  function AllChanges(libraries: seq<string>, newPattern: string -> string,
                      oldPattern: string -> string): (cs: seq<Change>)
    decreases |libraries|
  {
    if |libraries| == 0 then []
    else
      var last := libraries[|libraries| - 1];
      AllChanges(libraries[..|libraries| - 1], newPattern, oldPattern)
        + LibraryChanges(oldPattern(last), newPattern(last))
  }

  /** Folds `str.replace` over the changes, first change first. */
  function ApplyChanges(s: string, cs: seq<Change>): string
    decreases |cs|
  {
    if |cs| == 0 then s
    else Replace(ApplyChanges(s, cs[..|cs| - 1]), cs[|cs| - 1].from, cs[|cs| - 1].to)
  }

  /** The text `_fix_all_imports` returns. */
  function RewriteImports(text: string, libraries: seq<string>, newPattern: string -> string,
                          oldPattern: string -> string): string
  {
    ApplyChanges(text, AllChanges(libraries, newPattern, oldPattern))
  }

  /** `new_pattern` as `create_unique_zip` passes it: `library` becomes `prefix.library`. */
  function PrefixedName(prefix: string): string -> string {
    lib => prefix + "." + lib
  }

  /** The default `old_pattern`: the library name itself. */
  function BareName(lib: string): string {
    lib
  }

  /** `_fix_all_imports`: builds `all_changes` library by library, then folds
      `new_s` through them. */
  method FixAllImports(originalText: string, libraries: seq<string>,
                       newPattern: string -> string, oldPattern: string -> string)
    returns (newText: string)
    ensures newText == RewriteImports(originalText, libraries, newPattern, oldPattern)
  {
    var allChanges: seq<Change> := [];
    var i := 0;
    while i < |libraries|
      invariant 0 <= i <= |libraries|
      invariant allChanges == AllChanges(libraries[..i], newPattern, oldPattern)
    {
      var op := oldPattern(libraries[i]);
      var np := newPattern(libraries[i]);
      allChanges := allChanges + [Change("import " + op + " ", "import " + np + " ")];
      allChanges := allChanges + [Change("import " + op + ".", "import " + np + ".")];
      allChanges := allChanges + [Change("from " + op + ".", "from " + np + ".")];
      assert libraries[..i + 1][..i] == libraries[..i];
      i := i + 1;
    }
    assert libraries[..i] == libraries;
    newText := originalText;
    var j := 0;
    while j < |allChanges|
      invariant 0 <= j <= |allChanges|
      invariant newText == ApplyChanges(originalText, allChanges[..j])
    {
      assert allChanges[..j + 1][..j] == allChanges[..j];
      newText := Replace(newText, allChanges[j].from, allChanges[j].to);
      j := j + 1;
    }
    assert allChanges[..j] == allChanges;
  }

  /** Every generated change is a non-empty literal. */
  lemma {:induction false} AllChangesNonEmpty(libraries: seq<string>, newPattern: string -> string,
                                              oldPattern: string -> string)
    ensures forall c :: c in AllChanges(libraries, newPattern, oldPattern) ==> |c.from| > 0
    decreases |libraries|
  {
    if |libraries| > 0 {
      AllChangesNonEmpty(libraries[..|libraries| - 1], newPattern, oldPattern);
    }
  }

  /** A change belongs to `all_changes` exactly when it is one of the three
      pairs of some library. */
  lemma {:induction false} AllChangesMembers(libraries: seq<string>, newPattern: string -> string,
                                             oldPattern: string -> string, c: Change)
    ensures c in AllChanges(libraries, newPattern, oldPattern)
        <==> exists i :: 0 <= i < |libraries|
                && c in LibraryChanges(oldPattern(libraries[i]), newPattern(libraries[i]))
    decreases |libraries|
  {
    if |libraries| > 0 {
      var init := libraries[..|libraries| - 1];
      AllChangesMembers(init, newPattern, oldPattern, c);
      assert forall i :: 0 <= i < |init| ==> init[i] == libraries[i];
    }
  }

  /** Folding replacements that all miss the text leaves it as it is. */
  lemma {:induction false} ApplyAbsent(s: string, cs: seq<Change>)
    requires forall c :: c in cs ==> |c.from| > 0 && !Contains(s, c.from)
    ensures ApplyChanges(s, cs) == s
    decreases |cs|
  {
    if |cs| > 0 {
      var init := cs[..|cs| - 1];
      assert forall c :: c in init ==> c in cs;
      ApplyAbsent(s, init);
      ReplaceAbsent(s, cs[|cs| - 1].from, cs[|cs| - 1].to);
    }
  }

  /** Folding replacements that map every pattern to itself leaves the text as it is. */
  lemma {:induction false} ApplyIdentity(s: string, cs: seq<Change>)
    requires forall c :: c in cs ==> |c.from| > 0 && c.to == c.from
    ensures ApplyChanges(s, cs) == s
    decreases |cs|
  {
    if |cs| > 0 {
      var init := cs[..|cs| - 1];
      assert forall c :: c in init ==> c in cs;
      ApplyIdentity(s, init);
      ReplaceBySelf(s, cs[|cs| - 1].from);
    }
  }

  /** None of the three patterns of `lib` (old form `op`) occurs in `text`. */
  predicate NoImportOf(text: string, op: string) {
    && !Contains(text, "import " + op + " ")
    && !Contains(text, "import " + op + ".")
    && !Contains(text, "from " + op + ".")
  }

  /** Applying two lists of changes one after the other is applying their
      concatenation. */
  lemma {:induction false} ApplyAppend(s: string, a: seq<Change>, b: seq<Change>)
    ensures ApplyChanges(s, a + b) == ApplyChanges(ApplyChanges(s, a), b)
    decreases |b|
  {
    if |b| == 0 {
      assert a + b == a;
    } else {
      var ab := a + b;
      assert ab[..|ab| - 1] == a + b[..|b| - 1];
      ApplyAppend(s, a, b[..|b| - 1]);
    }
  }

  /** `all_changes` of a longer library list: the first library's pairs, then
      the rest's. */
  lemma {:induction false} AllChangesCons(lib: string, rest: seq<string>, newPattern: string -> string,
                                          oldPattern: string -> string)
    ensures AllChanges([lib] + rest, newPattern, oldPattern)
         == LibraryChanges(oldPattern(lib), newPattern(lib)) + AllChanges(rest, newPattern, oldPattern)
    decreases |rest|
  {
    var libs := [lib] + rest;
    if |rest| == 0 {
      assert libs[..0] == [];
    } else {
      assert libs[..|libs| - 1] == [lib] + rest[..|rest| - 1];
      AllChangesCons(lib, rest[..|rest| - 1], newPattern, oldPattern);
    }
  }

  /** For one library the rewrite is the three `str.replace` calls in order:
      `import L ` first, then `import L.`, then `from L.`. */
  lemma RewriteOneLibrary(text: string, lib: string, newPattern: string -> string,
                          oldPattern: string -> string)
    ensures RewriteImports(text, [lib], newPattern, oldPattern)
         == var op, np := oldPattern(lib), newPattern(lib);
            Replace(Replace(Replace(text, "import " + op + " ", "import " + np + " "),
                            "import " + op + ".", "import " + np + "."),
                    "from " + op + ".", "from " + np + ".")
  {
    var cs := LibraryChanges(oldPattern(lib), newPattern(lib));
    assert [lib][..0] == [];
    assert AllChanges([lib], newPattern, oldPattern) == cs;
    assert cs[..2][..1] == cs[..1];
    assert cs[..1][..0] == [];
    assert ApplyChanges(text, cs[..1]) == Replace(text, cs[0].from, cs[0].to);
    assert ApplyChanges(text, cs[..2]) == Replace(ApplyChanges(text, cs[..1]), cs[1].from, cs[1].to);
    assert cs[..3] == cs;
  }

  /** The libraries are processed one after the other: the rest of the list
      rewrites the text that the first library's replacements produced. */
  lemma RewriteLibraryByLibrary(text: string, lib: string, rest: seq<string>,
                                newPattern: string -> string, oldPattern: string -> string)
    ensures RewriteImports(text, [lib] + rest, newPattern, oldPattern)
         == RewriteImports(RewriteImports(text, [lib], newPattern, oldPattern), rest, newPattern, oldPattern)
  {
    AllChangesCons(lib, rest, newPattern, oldPattern);
    AllChangesCons(lib, [], newPattern, oldPattern);
    assert [lib] + [] == [lib];
    assert AllChanges([], newPattern, oldPattern) == [];
    var cs := LibraryChanges(oldPattern(lib), newPattern(lib));
    assert cs + [] == cs;
    ApplyAppend(text, cs, AllChanges(rest, newPattern, oldPattern));
  }

  /** Text that contains none of the generated patterns is returned unchanged. */
  lemma RewriteWithoutImports(text: string, libraries: seq<string>, newPattern: string -> string,
                              oldPattern: string -> string)
    requires forall i :: 0 <= i < |libraries| ==> NoImportOf(text, oldPattern(libraries[i]))
    ensures RewriteImports(text, libraries, newPattern, oldPattern) == text
  {
    var cs := AllChanges(libraries, newPattern, oldPattern);
    AllChangesNonEmpty(libraries, newPattern, oldPattern);
    forall c | c in cs
      ensures !Contains(text, c.from)
    {
      AllChangesMembers(libraries, newPattern, oldPattern, c);
    }
    ApplyAbsent(text, cs);
  }

  /** Renaming every library to its own old form rewrites nothing. */
  lemma RewriteToSameNames(text: string, libraries: seq<string>, pattern: string -> string)
    ensures RewriteImports(text, libraries, pattern, pattern) == text
  {
    var cs := AllChanges(libraries, pattern, pattern);
    AllChangesNonEmpty(libraries, pattern, pattern);
    forall c | c in cs
      ensures c.to == c.from
    {
      AllChangesMembers(libraries, pattern, pattern, c);
    }
    ApplyIdentity(text, cs);
  }

  /** A dotted import `import L.<rest>` is moved under the prefix, provided
      the rest of the text holds no further occurrence of L's patterns. */
  lemma DottedImportRewritten(lib: string, rest: string, prefix: string)
    requires !Contains(lib + "." + rest, "import " + lib + " ")
    requires !Contains(rest, "import " + lib + ".")
    requires !Contains(prefix + "." + lib + "." + rest, "from " + lib + ".")
    ensures RewriteImports("import " + lib + "." + rest, [lib], PrefixedName(prefix), BareName)
         == "import " + prefix + "." + lib + "." + rest
  {
    var np := prefix + "." + lib;
    var s := "import " + lib + "." + rest;
    var t := "import " + np + "." + rest;
    var p1, p2, p3 := "import " + lib + " ", "import " + lib + ".", "from " + lib + ".";
    var q1, q2, q3 := "import " + np + " ", "import " + np + ".", "from " + np + ".";
    calc {
      RewriteImports(s, [lib], PrefixedName(prefix), BareName);
      { assert PrefixedName(prefix)(lib) == np && BareName(lib) == lib;
        RewriteOneLibrary(s, lib, PrefixedName(prefix), BareName); }
      Replace(Replace(Replace(s, p1, q1), p2, q2), p3, q3);
      { DottedSpaceMissed(lib, rest, np); }
      Replace(Replace(s, p2, q2), p3, q3);
      { DottedDotHit(lib, rest, np); }
      Replace(t, p3, q3);
      { assert t == "import " + prefix + "." + lib + "." + rest;
        assert q3 == "from " + prefix + "." + lib + ".";
        DottedFromMissed(lib, rest, prefix); }
      t;
    }
  }

  /** First replacement of a dotted import: `import L ` does not occur. */
  lemma DottedSpaceMissed(lib: string, rest: string, np: string)
    requires !Contains(lib + "." + rest, "import " + lib + " ")
    ensures var s := "import " + lib + "." + rest;
            Replace(s, "import " + lib + " ", "import " + np + " ") == s
  {
    var s := "import " + lib + "." + rest;
    var p1 := "import " + lib + " ";
    assert s[..|p1|][|p1| - 1] == '.';
    assert s[1..] == "mport " + (lib + "." + rest);
    NotContainsAfterFree("mport ", lib + "." + rest, p1);
    ReplaceAbsent(s, p1, "import " + np + " ");
  }

  /** Second replacement of a dotted import: `import L.` is replaced at the start. */
  lemma DottedDotHit(lib: string, rest: string, np: string)
    requires !Contains(rest, "import " + lib + ".")
    ensures Replace("import " + lib + "." + rest, "import " + lib + ".", "import " + np + ".")
         == "import " + np + "." + rest
  {
    var s := "import " + lib + "." + rest;
    var p2 := "import " + lib + ".";
    assert s == p2 + rest;
    assert StartsWith(s, p2) && s[|p2|..] == rest;
    ReplaceAbsent(rest, p2, "import " + np + ".");
  }

  /** Third replacement of a dotted import: `from L.` does not occur. */
  lemma DottedFromMissed(lib: string, rest: string, prefix: string)
    requires !Contains(prefix + "." + lib + "." + rest, "from " + lib + ".")
    ensures var t := "import " + prefix + "." + lib + "." + rest;
            Replace(t, "from " + lib + ".", "from " + prefix + "." + lib + ".") == t
  {
    var t := "import " + prefix + "." + lib + "." + rest;
    var p3 := "from " + lib + ".";
    assert t == "import " + (prefix + "." + lib + "." + rest);
    NotContainsAfterFree("import ", prefix + "." + lib + "." + rest, p3);
    ReplaceAbsent(t, p3, "from " + prefix + "." + lib + ".");
  }

  /** `import L<t>` where `t` continues the name (neither a space nor a dot)
      is another module and is not rewritten. */
  lemma LongerNameKept(lib: string, t: string, prefix: string)
    requires |t| > 0 && t[0] != ' ' && t[0] != '.'
    requires NoImportOf(lib + t, lib)
    ensures RewriteImports("import " + lib + t, [lib], PrefixedName(prefix), BareName) == "import " + lib + t
  {
    var s := "import " + lib + t;
    var p1, p2, p3 := "import " + lib + " ", "import " + lib + ".", "from " + lib + ".";
    assert s[1..] == "mport " + (lib + t);
    assert s[..|p1|][|p1| - 1] == t[0];
    NotContainsAfterFree("mport ", lib + t, p1);
    NotContainsAfterFree("mport ", lib + t, p2);
    assert s == "import " + (lib + t);
    NotContainsAfterFree("import ", lib + t, p3);
    RewriteWithoutImports(s, [lib], PrefixedName(prefix), BareName);
  }

  /** `from L import <rest>` is not one of the patterns and is not rewritten. */
  lemma FromImportKept(lib: string, rest: string, prefix: string)
    requires NoImportOf(lib + " " + rest, lib)
    ensures RewriteImports("from " + lib + " " + rest, [lib], PrefixedName(prefix), BareName)
         == "from " + lib + " " + rest
  {
    var s := "from " + lib + " " + rest;
    var p1, p2, p3 := "import " + lib + " ", "import " + lib + ".", "from " + lib + ".";
    assert s == "from " + (lib + " " + rest);
    NotContainsAfterFree("from ", lib + " " + rest, p1);
    NotContainsAfterFree("from ", lib + " " + rest, p2);
    assert s[1..] == "rom " + (lib + " " + rest);
    assert s[..|p3|][|p3| - 1] == ' ';
    NotContainsAfterFree("rom ", lib + " " + rest, p3);
    RewriteWithoutImports(s, [lib], PrefixedName(prefix), BareName);
  }

  /** A line-final `import L`, with nothing after the name, is not rewritten. */
  lemma FinalBareImportKept(lib: string, prefix: string)
    ensures RewriteImports("import " + lib, [lib], PrefixedName(prefix), BareName) == "import " + lib
  {
    var s := "import " + lib;
    var p1, p2, p3 := "import " + lib + " ", "import " + lib + ".", "from " + lib + ".";
    NotContainsShort(s, p1);
    NotContainsShort(s, p2);
    assert s[0] == 'i' && s[1..][0] == 'm';
    NotContainsShort(s[1..][1..], p3);
    assert !StartsWith(s, p3) && !StartsWith(s[1..], p3);
    assert NoImportOf(s, BareName([lib][0]));
    RewriteWithoutImports(s, [lib], PrefixedName(prefix), BareName);
  }
}
