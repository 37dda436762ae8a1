/** Worked inputs for the extractor, showing what the patterns do with
    situations a reader of the source might get wrong. */
module Examples {
  import opened Text
  import opened Patterns
  import opened Extractor

  /** When the only match of `p` in `s` starts at `j`, `findall` reports
      exactly its group. */
  lemma FindAllOnly(s: string, p: Pattern, j: nat)
    requires j < |s|
    requires forall k :: 0 <= k < j ==> MatchAt(s, p, k).None?
    requires MatchAt(s, p, j).Some?
    requires forall k :: MatchAt(s, p, j).value.end <= k < |s| ==> MatchAt(s, p, k).None?
    ensures FindAll(s, p, 0) == [s[MatchAt(s, p, j).value.start..MatchAt(s, p, j).value.end]]
  {
    FindAllLeftmost(s, p, 0, j);
    FindAllNone(s, p, MatchAt(s, p, j).value.end);
  }

  // ------------------------------------------------- new without a boundary

  lemma RenewMatches()
    ensures MatchAt("renew Foo", NewPattern, 0).None?
    ensures MatchAt("renew Foo", NewPattern, 1).None?
    ensures MatchAt("renew Foo", NewPattern, 2) == Some(Span(6, 9))
  {
    var s := "renew Foo";
    assert !HasAt(s, 0, NewKeyword) by { assert s[0] == 'r'; }
    assert !HasAt(s, 1, NewKeyword) by { assert s[1] == 'e'; }
    assert HasAt(s, 2, NewKeyword) by { assert s[2..5] == "new"; }
    RunEndIs(s, 5, 6, IsSpace);
    RunEndIs(s, 7, 9, IsWord);
  }

  /** `new\s+([A-Z]\w*)` has no word boundary before `new`: the end of
      `renew` followed by a capitalised word is a match. */
  lemma NewMatchesInsideWord()
    ensures FindAll("renew Foo", NewPattern, 0) == ["Foo"]
  {
    var s := "renew Foo";
    RenewMatches();
    FindAllOnly(s, NewPattern, 2);
    assert s[6..9] == "Foo";
  }

  /** A lower-case word after `new` is not a dependency. */
  lemma NewNeedsCapital()
    ensures FindAll("new foo", NewPattern, 0) == []
  {
    var s := "new foo";
    assert HasAt(s, 0, NewKeyword) by { assert s[0..3] == "new"; }
    RunEndIs(s, 3, 4, IsSpace);
    assert MatchAt(s, NewPattern, 0).None?;
    forall k | 1 <= k < |s| ensures MatchAt(s, NewPattern, k).None? {
      assert s[k] != 'n' || k == 6;
      assert !HasAt(s, k, NewKeyword) by {
        if k + 3 <= |s| { assert s[k..k + 3][0] == s[k]; }
      }
    }
    FindAllNone(s, NewPattern, 0);
  }

  // ------------------------------------------------------------ implements

  lemma ImplementsGroupMatches()
    ensures MatchAt("implements A , B {", ImplementsList, 0) == Some(Span(11, 17))
    ensures forall k :: 17 <= k < 18 ==> MatchAt("implements A , B {", ImplementsList, k).None?
  {
    var s := "implements A , B {";
    assert HasAt(s, 0, ImplementsKeyword) by { assert s[0..10] == "implements"; }
    RunEndIs(s, 10, 11, IsSpace);
    RunEndIs(s, 11, 17, IsListChar);
    assert !HasAt(s, 17, ImplementsKeyword);
  }

  /** The `implements` group runs over spaces and commas and keeps the
      trailing space. */
  lemma ImplementsGroup()
    ensures FindAll("implements A , B {", ImplementsList, 0) == ["A , B "]
  {
    var s := "implements A , B {";
    ImplementsGroupMatches();
    FindAllOnly(s, ImplementsList, 0);
    assert s[11..17] == "A , B ";
  }

  /** `Strip(s)` is `r` when `s` has `a` leading spaces, then `r`, then only
      spaces, and `r` neither starts nor ends with a space. */
  lemma StripExample(s: string, a: nat, r: string)
    requires a + |r| <= |s| && s[a..a + |r|] == r
    requires forall k :: 0 <= k < a ==> IsSpace(s[k])
    requires r != [] && !IsSpace(r[0]) && !IsSpace(r[|r| - 1])
    requires forall k :: a + |r| <= k < |s| ==> IsSpace(s[k])
    ensures Strip(s) == r
  {
    assert s[a] == r[0];
    RunEndIs(s, 0, a, IsSpace);
  }

  /** Splitting that group on `,` and stripping each part gives the two
      names. */
  lemma ImplementsGroupPieces()
    ensures Pieces("A , B ") == ["A", "B"]
  {
    GroupSplit();
    StripExample("A ", 0, "A");
    StripExample(" B ", 1, "B");
  }

  lemma GroupSplit()
    ensures Split("A , B ", ',') == ["A ", " B "]
  {
    var g := "A , B ";
    assert g[2] == ',' && g[..2] == "A " && g[3..] == " B ";
    assert IndexOf(g, ',') == 2;
    assert IndexOf(g[3..], ',') == 3;
    assert Split(g[3..], ',') == [g[3..]];
  }

  lemma GivenBackMatches()
    ensures MatchAt("implements  {", ImplementsList, 0) == Some(Span(11, 12))
    ensures forall k :: 12 <= k < 13 ==> MatchAt("implements  {", ImplementsList, k).None?
  {
    var s := "implements  {";
    assert HasAt(s, 0, ImplementsKeyword) by { assert s[0..10] == "implements"; }
    RunEndIs(s, 10, 12, IsSpace);
    assert !HasAt(s, 12, ImplementsKeyword);
  }

  /** `implements` followed by two spaces and a brace: `\s+` gives its last
      space back to the group, whose stripped entry is the empty string, and
      `""` becomes a dependency. */
  lemma ImplementsEmptyEntry()
    ensures FindAll("implements  {", ImplementsList, 0) == [" "]
    ensures ImplementsDeps(FindAll("implements  {", ImplementsList, 0)) == {""}
  {
    var s := "implements  {";
    GivenBackMatches();
    FindAllOnly(s, ImplementsList, 0);
    assert s[11..12] == " ";
    assert IndexOf(" ", ',') == 1;
    assert Split(" ", ',') == [" "];
    StripEmpty(" ");
    assert Pieces(" ") == [""];
    assert [" "][..0] == [];
  }

  /** With a single space before the brace nothing can be given back, and
      there is no match. */
  lemma ImplementsNoEntry()
    ensures FindAll("implements {", ImplementsList, 0) == []
  {
    var s := "implements {";
    assert HasAt(s, 0, ImplementsKeyword) by { assert s[0..10] == "implements"; }
    RunEndIs(s, 10, 11, IsSpace);
    assert MatchAt(s, ImplementsList, 0).None?;
    forall k | 1 <= k < |s| ensures MatchAt(s, ImplementsList, k).None? {
      assert !HasAt(s, k, ImplementsKeyword);
    }
    FindAllNone(s, ImplementsList, 0);
  }

  // ------------------------------------------------------ package and import

  /** The first line of a text is its prefix up to and including the
      first `\n`. */
  lemma FirstLine(line: string, rest: string)
    requires line != [] && line[|line| - 1] == '\n' && '\n' !in line[..|line| - 1]
    ensures Lines(line + rest)[0] == line
  {
    var t := line + rest;
    assert t[|line| - 1] == '\n';
    assert forall k :: 0 <= k < |line| - 1 ==> t[k] == line[..|line| - 1][k];
    assert t[..|line|] == line;
  }

  /** A file whose first line is a `package` declaration gets its package
      from that line. */
  lemma PackageFromFirstLine(line: string, rest: string)
    requires line != [] && line[|line| - 1] == '\n' && '\n' !in line[..|line| - 1]
    requires MatchDeclaration(line, PackageKeyword).Some?
    ensures PackageOf(Contents(line + rest)) == MatchDeclaration(line, PackageKeyword).value
  {
    FirstLine(line, rest);
    PackageFirstMatch(Lines(line + rest), 0);
  }

  /** The `package` rule on a single line. */
  lemma PackageLine()
    ensures MatchDeclaration("package com.a;\n", PackageKeyword) == Some("com.a")
  {
    var line := "package com.a;\n";
    assert DeclarationAt(line, PackageKeyword, 0, 1, "com.a") by {
      assert line[0..7] == "package";
      assert line[8..13] == "com.a";
    }
    MatchDeclarationComplete(line, PackageKeyword, 0, 1, "com.a");
  }

  /** The file `package com.a;` / `import com.b.Bar;` takes its package from
      its first line. */
  lemma PackageOnFirstLine()
    ensures PackageOf(Contents("package com.a;\nimport com.b.Bar;\n")) == "com.a"
  {
    var line := "package com.a;\n";
    var rest := "import com.b.Bar;\n";
    assert line + rest == "package com.a;\nimport com.b.Bar;\n";
    assert '\n' !in line[..|line| - 1] by {
      assert line[..|line| - 1] == "package com.a;";
    }
    PackageLine();
    PackageFromFirstLine(line, rest);
  }

  /** A text whose first character is neither whitespace nor the `i` of
      `import` has no import capture. */
  lemma NoOpeningImport(t: string)
    requires t != [] && !IsSpace(t[0]) && t[0] != 'i'
    ensures ImportCaptures(t) == []
  {
    RunEndIs(t, 0, 0, IsSpace);
    assert |t| < 6 || t[0..6][0] == t[0];
  }

  /** The `import` on the line after the `package` line is not a
      dependency: the import rule only looks at the very start of the text. */
  lemma ImportAfterPackageIgnored()
    ensures "com.b.Bar" !in DepsOf(Contents("package com.a;\nimport com.b.Bar;\n"))
  {
    var t := "package com.a;\nimport com.b.Bar;\n";
    assert t[0] == 'p';
    NoOpeningImport(t);
    if "com.b.Bar" in DepsIn(t) {
      DottedOnlyFromImport(t, "com.b.Bar");
    }
  }
}
