/** The Python string operations the archive code is built from:
    `startswith`, `endswith`, `in`, `str.replace`, `str.split` and `str.join`,
    with the facts about them that the rest of the model relies on. */
module Strings {

  /** `s.startswith(p)` */
  predicate StartsWith(s: string, p: string) {
    |p| <= |s| && s[..|p|] == p
  }

  /** `s.endswith(p)` */
  predicate EndsWith(s: string, p: string) {
    |p| <= |s| && s[|s| - |p|..] == p
  }

  /** `sub in s`: some suffix of `s` starts with `sub`. */
  predicate Contains(s: string, sub: string)
    decreases |s|
  {
    StartsWith(s, sub) || (|s| > 0 && Contains(s[1..], sub))
  }

  /** `s.replace(pat, rep)`: scans left to right and replaces every
      non-overlapping occurrence of `pat`. An empty `pat` matches before every
      character and at the end, as in Python (`"ab".replace("", "X") == "XaXbX"`). */
  function Replace(s: string, pat: string, rep: string): string
    decreases |s|
  {
    if |pat| == 0 then
      if |s| == 0 then rep else rep + [s[0]] + Replace(s[1..], pat, rep)
    else if StartsWith(s, pat) then rep + Replace(s[|pat|..], pat, rep)
    else if |s| == 0 then []
    else [s[0]] + Replace(s[1..], pat, rep)
  }

  /** `s.split(sep)` for a non-empty separator (Python raises on an empty
      one). There is always at least one part. */
  function Split(s: string, sep: string): (parts: seq<string>)
    requires |sep| > 0
    ensures |parts| > 0
    decreases |s|
  {
    if StartsWith(s, sep) then [[]] + Split(s[|sep|..], sep)
    else if |s| == 0 then [[]]
    else
      var rest := Split(s[1..], sep);
      [[s[0]] + rest[0]] + rest[1..]
  }

  /** `sep.join(parts)` */
  function Join(sep: string, parts: seq<string>): string {
    if |parts| == 0 then []
    else if |parts| == 1 then parts[0]
    else parts[0] + sep + Join(sep, parts[1..])
  }

  /** Prepending a character to the first part prepends it to the joined text. */
  lemma JoinConsFirst(sep: string, c: char, parts: seq<string>)
    requires |parts| > 0
    ensures Join(sep, [[c] + parts[0]] + parts[1..]) == [c] + Join(sep, parts)
  {
    var q := [[c] + parts[0]] + parts[1..];
    if |parts| > 1 {
      assert q[1..] == parts[1..];
    }
  }

  /** `sep.join(s.split(sep)) == s`: splitting loses nothing. */
  lemma {:induction false} JoinSplit(s: string, sep: string)
    requires |sep| > 0
    ensures Join(sep, Split(s, sep)) == s
    decreases |s|
  {
    if StartsWith(s, sep) {
      var rest := s[|sep|..];
      JoinSplit(rest, sep);
      var parts := [[]] + Split(rest, sep);
      assert parts[1..] == Split(rest, sep);
      assert Join(sep, parts) == [] + sep + Join(sep, Split(rest, sep));
      assert s == sep + rest;
    } else if |s| > 0 {
      JoinSplit(s[1..], sep);
      JoinConsFirst(sep, s[0], Split(s[1..], sep));
      assert s == [s[0]] + s[1..];
    }
  }

  /** Python's `s.replace(pat, rep) == rep.join(s.split(pat))` for a non-empty
      pattern: the left-to-right scan of Replace agrees with this independent
      definition through Split and Join. */
  lemma {:induction false} ReplaceIsJoinOfSplit(s: string, pat: string, rep: string)
    requires |pat| > 0
    ensures Replace(s, pat, rep) == Join(rep, Split(s, pat))
    decreases |s|
  {
    if StartsWith(s, pat) {
      var rest := s[|pat|..];
      ReplaceIsJoinOfSplit(rest, pat, rep);
      var parts := [[]] + Split(rest, pat);
      assert parts[1..] == Split(rest, pat);
      assert Join(rep, parts) == [] + rep + Join(rep, Split(rest, pat));
    } else if |s| > 0 {
      ReplaceIsJoinOfSplit(s[1..], pat, rep);
      JoinConsFirst(rep, s[0], Split(s[1..], pat));
    }
  }

  /** Replacing a pattern by itself changes nothing. */
  lemma ReplaceBySelf(s: string, pat: string)
    requires |pat| > 0
    ensures Replace(s, pat, pat) == s
  {
    ReplaceIsJoinOfSplit(s, pat, pat);
    JoinSplit(s, pat);
  }

  /** Text that does not contain the pattern is returned unchanged. */
  lemma {:induction false} ReplaceAbsent(s: string, pat: string, rep: string)
    requires |pat| > 0 && !Contains(s, pat)
    ensures Replace(s, pat, rep) == s
    decreases |s|
  {
    if |s| > 0 {
      ReplaceAbsent(s[1..], pat, rep);
      assert s == [s[0]] + s[1..];
    }
  }

  /** An occurrence needs room: a text shorter than `sub` does not contain it. */
  lemma {:induction false} NotContainsShort(s: string, sub: string)
    requires |s| < |sub|
    ensures !Contains(s, sub)
    decreases |s|
  {
    if |s| > 0 {
      NotContainsShort(s[1..], sub);
    }
  }

  /** A leading piece without the first character of `sub` cannot start an
      occurrence of it. */
  lemma {:induction false} NotContainsAfterFree(a: string, b: string, sub: string)
    requires |sub| > 0 && sub[0] !in a && !Contains(b, sub)
    ensures !Contains(a + b, sub)
    decreases |a|
  {
    if |a| > 0 {
      assert a[0] in a;
      assert (a + b)[1..] == a[1..] + b;
      NotContainsAfterFree(a[1..], b, sub);
    } else {
      assert a + b == b;
    }
  }

  /** A text without the first character of `sub` does not contain `sub`. */
  lemma NotContainsWithoutFirst(s: string, sub: string)
    requires |sub| > 0 && sub[0] !in s
    ensures !Contains(s, sub)
  {
    NotContainsAfterFree(s, [], sub);
    assert s + [] == s;
  }

  /** Replace introduces no character that is in neither the text nor the
      replacement. */
  lemma {:induction false} ReplaceKeepsOut(s: string, pat: string, rep: string, c: char)
    requires c !in s && c !in rep
    ensures c !in Replace(s, pat, rep)
    decreases |s|
  {
    if |s| > 0 {
      if |pat| > 0 && StartsWith(s, pat) {
        ReplaceKeepsOut(s[|pat|..], pat, rep, c);
      } else {
        ReplaceKeepsOut(s[1..], pat, rep, c);
      }
    }
  }

  /** A character that the pattern does not contain cuts the replacement in
      two: no occurrence of the pattern can straddle it. */
  lemma {:induction false} ReplaceAround(a: string, c: char, b: string, pat: string, rep: string)
    requires |pat| > 0 && c !in pat
    ensures Replace(a + [c] + b, pat, rep) == Replace(a, pat, rep) + [c] + Replace(b, pat, rep)
    decreases |a|
  {
    var s := a + [c] + b;
    assert pat[0] in pat;
    if |a| == 0 {
      assert s == [c] + b && s[0] == c;
      assert s[1..] == b;
    } else if |pat| <= |a| && a[..|pat|] == pat {
      assert s[..|pat|] == a[..|pat|];
      assert s[|pat|..] == a[|pat|..] + [c] + b;
      ReplaceAround(a[|pat|..], c, b, pat, rep);
    } else {
      NoMatchAcross(a, c, b, pat);
      assert s[1..] == a[1..] + [c] + b;
      ReplaceAround(a[1..], c, b, pat, rep);
    }
  }

  /** A pattern without `c` that does not start `a` does not start `a + [c] + b`. */
  lemma NoMatchAcross(a: string, c: char, b: string, pat: string)
    requires c !in pat && !(|pat| <= |a| && a[..|pat|] == pat)
    ensures !StartsWith(a + [c] + b, pat)
  {
    var s := a + [c] + b;
    if |pat| <= |a| {
      assert s[..|pat|] == a[..|pat|];
    } else if |pat| <= |s| {
      assert pat[|a|] in pat;
      assert s[..|pat|][|a|] == c;
    }
  }

  /** Splitting on a one-character separator: a leading piece free of the
      separator is glued to the first part of the rest. */
  lemma {:induction false} SplitSeparatorFree(a: string, t: string, c: char)
    requires c !in a
    ensures Split(a + t, [c]) == [a + Split(t, [c])[0]] + Split(t, [c])[1..]
    decreases |a|
  {
    if |a| > 0 {
      var s := a + t;
      assert !StartsWith(s, [c]) by { assert s[0] == a[0]; }
      assert s[1..] == a[1..] + t;
      SplitSeparatorFree(a[1..], t, c);
      assert [a[0]] + (a[1..] + Split(t, [c])[0]) == a + Split(t, [c])[0];
    } else {
      var parts := Split(t, [c]);
      assert a + t == t && a + parts[0] == parts[0];
      assert [parts[0]] + parts[1..] == parts;
    }
  }

  /** `(a + c + b).split(c) == [a] + b.split(c)` when `a` has no `c`. */
  lemma SplitAtFirst(a: string, c: char, b: string)
    requires c !in a
    ensures Split(a + [c] + b, [c]) == [a] + Split(b, [c])
  {
    SplitSeparatorFree(a, [c] + b, c);
    assert a + [c] + b == a + ([c] + b);
    assert StartsWith([c] + b, [c]);
    assert ([c] + b)[1..] == b;
    assert a + [] == a;
  }

  /** A text without the separator splits into itself. */
  lemma SplitWhole(a: string, c: char)
    requires c !in a
    ensures Split(a, [c]) == [a]
  {
    SplitSeparatorFree(a, [], c);
    assert a + [] == a;
  }
  /** A string in which `c` does not occur splits into itself. */
  lemma SplitUnseparated(a: string, c: char)
    requires !Contains(a, [c])
    ensures Split(a, [c]) == [a]
  {
    if c in a {
      var k :| 0 <= k < |a| && a[k] == c;
      assert a[k..][..1] == [c];
      ContainsAt(a, k, [c]);
    }
    SplitWhole(a, c);
  }


  /** No part of `s.split(c)` contains `c`. */
  lemma {:induction false} SplitPartsFree(s: string, c: char)
    ensures forall i :: 0 <= i < |Split(s, [c])| ==> c !in Split(s, [c])[i]
    decreases |s|
  {
    if |s| > 0 {
      if StartsWith(s, [c]) {
        SplitPartsFree(s[1..], c);
      } else {
        SplitPartsFree(s[1..], c);
        assert s[0] != c;
      }
    }
  }

  /** `c.join(parts).split(c) == parts` when no part contains `c`. */
  lemma {:induction false} SplitJoin(parts: seq<string>, c: char)
    requires |parts| > 0
    requires forall i :: 0 <= i < |parts| ==> c !in parts[i]
    ensures Split(Join([c], parts), [c]) == parts
    decreases |parts|
  {
    if |parts| == 1 {
      SplitWhole(parts[0], c);
    } else {
      var tail := parts[1..];
      assert forall i :: 0 <= i < |tail| ==> c !in tail[i] by {
        forall i | 0 <= i < |tail| ensures c !in tail[i] { assert tail[i] == parts[i + 1]; }
      }
      SplitJoin(tail, c);
      assert Join([c], parts) == parts[0] + [c] + Join([c], tail);
      assert c !in parts[0];
      SplitAtFirst(parts[0], c, Join([c], tail));
      assert parts == [parts[0]] + tail;
    }
  }

  /** The first occurrence of the pattern, after a piece that cannot start
      one, is the first one replaced. */
  lemma {:induction false} ReplaceFirstAt(a: string, pat: string, b: string, rep: string)
    requires |pat| > 0 && pat[0] !in a
    ensures Replace(a + pat + b, pat, rep) == a + rep + Replace(b, pat, rep)
    decreases |a|
  {
    var s := a + pat + b;
    if |a| == 0 {
      assert s == pat + b && s[..|pat|] == pat && s[|pat|..] == b;
    } else {
      assert a[0] in a && s[0] == a[0];
      assert !StartsWith(s, pat);
      assert s[1..] == a[1..] + pat + b;
      ReplaceFirstAt(a[1..], pat, b, rep);
    }
  }

  /** An occurrence at any position is found by `in`. */
  lemma {:induction false} ContainsAt(s: string, k: nat, sub: string)
    requires k <= |s| && StartsWith(s[k..], sub)
    ensures Contains(s, sub)
    decreases k
  {
    if k == 0 {
      assert s[0..] == s;
    } else {
      assert s[1..][k - 1..] == s[k..];
      ContainsAt(s[1..], k - 1, sub);
    }
  }

  /** Joining one more part at the end adds the separator and the part. */
  lemma {:induction false} JoinSnoc(sep: string, parts: seq<string>, last: string)
    requires |parts| > 0
    ensures Join(sep, parts + [last]) == Join(sep, parts) + sep + last
    decreases |parts|
  {
    var all := parts + [last];
    if |parts| == 1 {
      assert all[1..] == [last];
    } else {
      assert all[1..] == parts[1..] + [last];
      JoinSnoc(sep, parts[1..], last);
    }
  }

  /** A text holding `c` is cut at its first `c`. */
  lemma {:induction false} FirstSeparator(s: string, c: char) returns (a: string, b: string)
    requires c in s
    ensures c !in a && s == a + [c] + b
    decreases |s|
  {
    if s[0] == c {
      a, b := [], s[1..];
      assert s == [s[0]] + s[1..];
    } else {
      var a', b' := FirstSeparator(s[1..], c);
      a, b := [s[0]] + a', b';
      assert s == [s[0]] + s[1..];
    }
  }

  /** Splitting on a character that neither the pattern nor the replacement
      holds: the first part of the replaced text is the replaced first part. */
  lemma SplitReplaceFirst(s: string, c: char, pat: string, rep: string)
    requires |pat| > 0 && c !in pat && c !in rep
    ensures Split(Replace(s, pat, rep), [c])[0] == Replace(Split(s, [c])[0], pat, rep)
  {
    if c in s {
      var a, b := FirstSeparator(s, c);
      SplitAtFirst(a, c, b);
      ReplaceAround(a, c, b, pat, rep);
      ReplaceKeepsOut(a, pat, rep, c);
      SplitAtFirst(Replace(a, pat, rep), c, Replace(b, pat, rep));
    } else {
      SplitWhole(s, c);
      ReplaceKeepsOut(s, pat, rep, c);
      SplitWhole(Replace(s, pat, rep), c);
    }
  }

  /** The same for the second part, when there is one. */
  lemma SplitReplaceSecond(s: string, c: char, pat: string, rep: string)
    requires |pat| > 0 && c !in pat && c !in rep
    requires |Split(s, [c])| >= 2
    ensures |Split(Replace(s, pat, rep), [c])| >= 2
    ensures Split(Replace(s, pat, rep), [c])[1] == Replace(Split(s, [c])[1], pat, rep)
  {
    if c !in s {
      SplitWhole(s, c);
    }
    var a, b := FirstSeparator(s, c);
    SplitAtFirst(a, c, b);
    ReplaceAround(a, c, b, pat, rep);
    ReplaceKeepsOut(a, pat, rep, c);
    SplitAtFirst(Replace(a, pat, rep), c, Replace(b, pat, rep));
    SplitReplaceFirst(b, c, pat, rep);
  }

  /** An occurrence in the tail is an occurrence in the whole. */
  lemma {:induction false} ContainsInTail(a: string, b: string, sub: string)
    requires Contains(b, sub)
    ensures Contains(a + b, sub)
    decreases |a|
  {
    if |a| == 0 {
      assert a + b == b;
    } else {
      assert (a + b)[1..] == a[1..] + b;
      ContainsInTail(a[1..], b, sub);
    }
  }
}
