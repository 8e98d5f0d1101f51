/** The import rewriter on the concrete texts that document its behaviour,
    as `create_unique_zip` calls it (a library `L` becomes `prefix.L`). */
module RewriterExamples {
  import opened Strings
  import opened ImportRewriter

  /** `import foo.bar` becomes `import ns.foo.bar`. */
  lemma DottedImportExample()
    ensures RewriteImports("import foo.bar", ["foo"], PrefixedName("ns"), BareName) == "import ns.foo.bar"
  {
    assert "foo" + "." + "bar" == "foo.bar";
    assert "import " + "foo" + " " == "import foo ";
    assert "import " + "foo" + "." == "import foo.";
    assert "from " + "foo" + "." == "from foo.";
    assert "ns" + "." + "foo" + "." + "bar" == "ns." + "foo.bar";
    assert "import " + "foo" + "." + "bar" == "import foo.bar";
    assert "import " + "ns" + "." + "foo" + "." + "bar" == "import ns.foo.bar";
    NotContainsShort("foo.bar", "import foo ");
    NotContainsShort("bar", "import foo.");
    NotContainsShort("foo.bar", "from foo.");
    NotContainsAfterFree("ns.", "foo.bar", "from foo.");
    DottedImportRewritten("foo", "bar", "ns");
  }

  /** `import foobar` is left alone when the library is `foo`, whatever the prefix. */
  lemma LongerNameExample(prefix: string)
    ensures RewriteImports("import foobar", ["foo"], PrefixedName(prefix), BareName) == "import foobar"
  {
    assert "import " + "foo" + " " == "import foo ";
    assert "import " + "foo" + "." == "import foo.";
    assert "from " + "foo" + "." == "from foo.";
    assert "foo" + "bar" == "foobar" && "import " + "foo" + "bar" == "import foobar";
    NotContainsShort("foobar", "import foo ");
    NotContainsShort("foobar", "import foo.");
    NotContainsShort("foobar", "from foo.");
    LongerNameKept("foo", "bar", prefix);
  }

  /** Past the keyword, `from foo import x` holds neither import pattern of `foo`. */
  lemma FromImportTailNoImport(pat: string)
    requires pat == "import foo " || pat == "import foo."
    ensures !Contains("foo import x", pat)
  {
    assert "foo import x" == "foo " + "import x";
    assert pat[0] == 'i' && 'i' !in "foo ";
    NotContainsShort("import x", pat);
    NotContainsAfterFree("foo ", "import x", pat);
  }

  /** Past the keyword, `from foo import x` does not hold `from foo.` either. */
  lemma FromImportTailNoFrom()
    ensures !Contains("foo import x", "from foo.")
  {
    var t := "foo import x";
    assert 'f' !in t[1..];
    NotContainsWithoutFirst(t[1..], "from foo.");
    assert !StartsWith(t, "from foo.") by { assert t[0] == 'f' && t[1] == 'o'; }
  }

  /** `from foo import x` is left alone when the library is `foo`, whatever the prefix. */
  lemma FromImportExample(prefix: string)
    ensures RewriteImports("from foo import x", ["foo"], PrefixedName(prefix), BareName) == "from foo import x"
  {
    assert "import " + "foo" + " " == "import foo ";
    assert "import " + "foo" + "." == "import foo.";
    assert "from " + "foo" + "." == "from foo.";
    assert "foo" + " " + "import x" == "foo import x";
    assert "from " + "foo" + " " + "import x" == "from foo import x";
    FromImportTailNoImport("import foo ");
    FromImportTailNoImport("import foo.");
    FromImportTailNoFrom();
    FromImportKept("foo", "import x", prefix);
  }

  /** A line-final `import foo` is left alone, whatever the prefix. */
  lemma FinalImportExample(prefix: string)
    ensures RewriteImports("import foo", ["foo"], PrefixedName(prefix), BareName) == "import foo"
  {
    assert "import " + "foo" == "import foo";
    FinalBareImportKept("foo", prefix);
  }

  /** With prefix `b`, library `a` turns `import a.x` into `import b.a.x`. */
  lemma PrefixFirstLibrary()
    ensures RewriteImports("import a.x", ["a"], PrefixedName("b"), BareName) == "import b.a.x"
  {
    assert "a" + "." + "x" == "a.x";
    assert "import " + "a" + "." + "x" == "import a.x";
    assert "b" + "." + "a" + "." + "x" == "b.a.x";
    assert "import " + "b" + "." + "a" + "." + "x" == "import b.a.x";
    NotContainsShort("a.x", "import " + "a" + " ");
    NotContainsShort("x", "import " + "a" + ".");
    NotContainsShort("b.a.x", "from " + "a" + ".");
    DottedImportRewritten("a", "x", "b");
  }

  /** Library `b` then prefixes the already rewritten line a second time. */
  lemma PrefixTwice()
    ensures RewriteImports("import b.a.x", ["b"], PrefixedName("b"), BareName) == "import b.b.a.x"
  {
    assert "import " + "b" + "." + "a.x" == "import b.a.x";
    assert "b" + "." + "b" + "." + "a.x" == "b.b.a.x";
    assert "import " + "b" + "." + "b" + "." + "a.x" == "import b.b.a.x";
    NotContainsShort("b.a.x", "import " + "b" + " ");
    NotContainsShort("a.x", "import " + "b" + ".");
    var from := "from " + "b" + ".";
    assert from[0] == 'f' && 'f' !in "b.b.a.x";
    NotContainsWithoutFirst("b.b.a.x", from);
    DottedImportRewritten("b", "a.x", "b");
  }

  /** `import a.x` holds none of library `b`'s patterns. */
  lemma NoImportOfOtherLibrary()
    ensures NoImportOf("import a.x", "b")
  {
    var s := "import a.x";
    var tail := s[1..];
    assert s == [s[0]] + tail && 'i' !in tail && 'f' !in s;
    var p1, p2, p3 := "import " + "b" + " ", "import " + "b" + ".", "from " + "b" + ".";
    assert p1[0] == 'i' && p2[0] == 'i' && p3[0] == 'f';
    assert !StartsWith(s, p1) by { assert s[7] != p1[7]; }
    assert !StartsWith(s, p2) by { assert s[7] != p2[7]; }
    NotContainsWithoutFirst(tail, p1);
    NotContainsWithoutFirst(tail, p2);
    NotContainsWithoutFirst(s, p3);
  }

  /** The libraries are applied one after the other, so their order matters
      when the prefix is itself one of the libraries: the same line comes
      out prefixed twice or once. */
  lemma LibraryOrderMatters()
    ensures RewriteImports("import a.x", ["a", "b"], PrefixedName("b"), BareName) == "import b.b.a.x"
    ensures RewriteImports("import a.x", ["b", "a"], PrefixedName("b"), BareName) == "import b.a.x"
  {
    assert ["a", "b"] == ["a"] + ["b"] && ["b", "a"] == ["b"] + ["a"];
    RewriteLibraryByLibrary("import a.x", "a", ["b"], PrefixedName("b"), BareName);
    PrefixFirstLibrary();
    PrefixTwice();
    RewriteLibraryByLibrary("import a.x", "b", ["a"], PrefixedName("b"), BareName);
    NoImportOfOtherLibrary();
    RewriteWithoutImports("import a.x", ["b"], PrefixedName("b"), BareName);
  }
}
