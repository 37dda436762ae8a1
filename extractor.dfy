/** `extract_package_and_deps`: the package and the dependency set of one
    Java file, from the five patterns. The file system is not modelled: the
    function receives what reading the file gave, its decoded and
    `\n`-normalised text or a read error. */
module Extractor {
  import opened Text
  import opened Patterns

  /** What opening and reading a file gives. */
  datatype ReadOutcome = Contents(text: string) | Unreadable

  // ---------------------------------------------------------------- package

  /** The package rule: `re_package.match` tried on each line in turn, the
      first line that matches wins, and no match leaves the package `""`. */
  function PackageIn(lines: seq<string>): (pkg: string)
    ensures pkg != "" ==> All(pkg, IsNameChar)
    decreases |lines|
  {
    if lines == [] then ""
    else
      match MatchDeclaration(lines[0], PackageKeyword)
      case Some(name) => name
      case None => PackageIn(lines[1..])
  }

  /** The first matching line gives the package; later matches are ignored. */
  lemma {:induction false} PackageFirstMatch(lines: seq<string>, i: nat)
    requires i < |lines|
    requires forall j :: 0 <= j < i ==> MatchDeclaration(lines[j], PackageKeyword).None?
    requires MatchDeclaration(lines[i], PackageKeyword).Some?
    ensures PackageIn(lines) == MatchDeclaration(lines[i], PackageKeyword).value
    decreases i
  {
    if i > 0 {
      PackageFirstMatch(lines[1..], i - 1);
    }
  }

  /** The package is empty exactly when no line matches (a reported package
      name is never empty). */
  lemma {:induction false} PackageEmptyIff(lines: seq<string>)
    ensures PackageIn(lines) == ""
            <==> forall j :: 0 <= j < |lines| ==> MatchDeclaration(lines[j], PackageKeyword).None?
    decreases |lines|
  {
    if lines != [] {
      PackageEmptyIff(lines[1..]);
      if MatchDeclaration(lines[0], PackageKeyword).None? {
        assert forall j :: 1 <= j < |lines| ==> lines[j] == lines[1..][j - 1];
      }
    }
  }

  // ------------------------------------------------------------ dependencies

  /** `map(str.strip, group.split(","))`: the entries of one `implements`
      capture. */
  function Pieces(group: string): (pieces: seq<string>)
    ensures pieces != [] && |pieces| == |Split(group, ',')|
  {
    var parts := Split(group, ',');
    seq(|parts|, k requires 0 <= k < |parts| => Strip(parts[k]))
  }

  /** One entry per comma-separated part, each without a comma and without
      surrounding whitespace, and empty exactly when its part is all
      whitespace. */
  lemma PiecesShape(group: string)
    ensures |Pieces(group)| == |Split(group, ',')|
    ensures forall k :: 0 <= k < |Pieces(group)| ==>
              && ',' !in Pieces(group)[k]
              && (Pieces(group)[k] == [] <==> All(Split(group, ',')[k], IsSpace))
              && (Pieces(group)[k] == [] || !IsSpace(Pieces(group)[k][0]))
  {
    var parts := Split(group, ',');
    forall k | 0 <= k < |parts|
      ensures ',' !in Pieces(group)[k]
      ensures Pieces(group)[k] == [] <==> All(parts[k], IsSpace)
    {
      StripEmpty(parts[k]);
      var a := RunEnd(parts[k], 0, IsSpace);
      var r := Strip(parts[k]);
      assert r == parts[k][a..a + |r|];
    }
  }

  /** Union of the entries of the `implements` captures, one capture after
      the other. */
  function ImplementsDeps(groups: seq<string>): set<string>
    decreases |groups|
  {
    if groups == [] then {}
    else ImplementsDeps(groups[..|groups| - 1]) + Elements(Pieces(groups[|groups| - 1]))
  }

  /** Adding the entries of the next capture extends the union by one
      capture. */
  lemma ImplementsDepsStep(base: set<string>, acc: set<string>, groups: seq<string>, j: nat)
    requires j < |groups| && acc == base + ImplementsDeps(groups[..j])
    ensures acc + Elements(Pieces(groups[j])) == base + ImplementsDeps(groups[..j + 1])
  {
    assert groups[..j + 1][..j] == groups[..j];
  }

  /** An entry is an `implements` dependency exactly when it is an entry of
      one of the captures. */
  lemma {:induction false} ImplementsDepsIff(groups: seq<string>, d: string)
    ensures d in ImplementsDeps(groups)
            <==> exists k :: 0 <= k < |groups| && d in Pieces(groups[k])
    decreases |groups|
  {
    if groups != [] {
      var n := |groups| - 1;
      var init := groups[..n];
      ImplementsDepsIff(init, d);
      if d in ImplementsDeps(groups) {
        if d in ImplementsDeps(init) {
          var k :| 0 <= k < n && d in Pieces(init[k]);
          assert groups[k] == init[k];
        } else {
          assert d in Pieces(groups[n]);
        }
      }
      if k :| 0 <= k < |groups| && d in Pieces(groups[k]) {
        if k < n {
          assert init[k] == groups[k];
        }
      }
    }
  }

  /** The dependency set of a text: the union of what the import, `new`,
      `extends` and `implements` rules capture. */
  function DepsIn(content: string): set<string> {
    Elements(ImportCaptures(content))
    + Elements(FindAll(content, NewPattern, 0))
    + Elements(FindAll(content, ExtendsPattern, 0))
    + ImplementsDeps(FindAll(content, ImplementsList, 0))
  }

  function PackageOf(file: ReadOutcome): string {
    match file
    case Contents(text) => PackageIn(Lines(text))
    case Unreadable => ""
  }

  function DepsOf(file: ReadOutcome): set<string> {
    match file
    case Contents(text) => DepsIn(text)
    case Unreadable => {}
  }

  /** The package loop: try `re_package.match` on each line and stop at the
      first line that matches. */
  method ScanPackage(lines: seq<string>) returns (pkg: string)
    ensures pkg == PackageIn(lines)
  {
    pkg := "";
    for i := 0 to |lines|
      invariant pkg == ""
      invariant PackageIn(lines) == PackageIn(lines[i..])
    {
      var m := MatchDeclaration(lines[i], PackageKeyword);
      if m.Some? {
        pkg := m.value;
        return;
      }
      assert lines[i..][1..] == lines[i + 1..];
    }
  }

  /** The `implements` loop: add the stripped entries of each capture to
      the set. */
  method AddImplementsEntries(deps0: set<string>, impls: seq<string>) returns (deps: set<string>)
    ensures deps == deps0 + ImplementsDeps(impls)
  {
    deps := deps0;
    for j := 0 to |impls|
      invariant deps == deps0 + ImplementsDeps(impls[..j])
    {
      ImplementsDepsStep(deps0, deps, impls, j);
      deps := deps + Elements(Pieces(impls[j]));
    }
    assert impls[..|impls|] == impls;
  }

  /** `extract_package_and_deps`: scan the lines for the package, stopping at
      the first match, then add every rule's captures to the dependency set.
      A read error is caught: the result is then `("", {})`. */
  method ExtractPackageAndDeps(file: ReadOutcome) returns (pkg: string, deps: set<string>)
    ensures pkg == PackageOf(file) && deps == DepsOf(file)
    ensures file.Unreadable? ==> pkg == "" && deps == {}
  {
    deps := {};
    pkg := "";
    match file
    case Unreadable =>
      // the exception is reported on the console and swallowed
    case Contents(text) =>
      var lines := Lines(text);
      var content := Concat(lines);
      LinesRoundTrip(text);

      pkg := ScanPackage(lines);

      deps := deps + Elements(ImportCaptures(content));
      deps := deps + Elements(FindAll(content, NewPattern, 0));
      deps := deps + Elements(FindAll(content, ExtendsPattern, 0));
      var impls := FindAll(content, ImplementsList, 0);
      deps := AddImplementsEntries(deps, impls);
  }

  // ---------------------------------------------------------- properties

  /** The import rule contributes at most one dependency: the full dotted
      name of an `import` that opens the text, after optional whitespace. */
  lemma ImportOnlyAtStart(content: string, name: string)
    ensures ImportCaptures(content) == [name]
            <==> exists lead: nat, gap: nat :: DeclarationAt(content, ImportKeyword, lead, gap, name)
  {
    if ImportCaptures(content) == [name] {
      MatchDeclarationSound(content, ImportKeyword);
    }
    if lead: nat, gap: nat :| DeclarationAt(content, ImportKeyword, lead, gap, name) {
      MatchDeclarationComplete(content, ImportKeyword, lead, gap, name);
    }
  }

  /** A character of a split piece is a character of the split string. */
  lemma {:induction false} SplitChars(s: string, sep: char, k: nat, c: char)
    requires k < |Split(s, sep)| && c in Split(s, sep)[k]
    ensures c in s
    decreases |s|
  {
    var i := IndexOf(s, sep);
    if i < |s| && k > 0 {
      SplitChars(s[i + 1..], sep, k - 1, c);
    }
  }

  /** Stripping only removes characters. */
  lemma StripChars(s: string, c: char)
    requires c in Strip(s)
    ensures c in s
  {
    var r := Strip(s);
    var a := RunEnd(s, 0, IsSpace);
    var k :| 0 <= k < |r| && r[k] == c;
    assert r[k] == s[a + k];
  }

  /** A character of an `implements` entry is a character of its capture. */
  lemma PieceChars(group: string, d: string, c: char)
    requires d in Pieces(group) && c in d
    ensures c in group
  {
    var pieces := Pieces(group);
    var parts := Split(group, ',');
    var t :| 0 <= t < |pieces| && pieces[t] == d;
    assert d == Strip(parts[t]);
    StripChars(parts[t], c);
    SplitChars(group, ',', t, c);
  }

  /** The `new`, `extends` and `implements` rules never capture a `.`. */
  lemma UndottedCaptures(content: string, d: string)
    requires || d in FindAll(content, NewPattern, 0)
             || d in FindAll(content, ExtendsPattern, 0)
             || d in ImplementsDeps(FindAll(content, ImplementsList, 0))
    ensures '.' !in d
  {
    var groups := FindAll(content, ImplementsList, 0);
    DotClasses();
    if d in ImplementsDeps(groups) {
      ImplementsDepsIff(groups, d);
      var k :| 0 <= k < |groups| && d in Pieces(groups[k]);
      assert IsCapture(ImplementsList, groups[k]);
      AllExcludes(groups[k], IsListChar, '.');
      if '.' in d {
        PieceChars(groups[k], d, '.');
      }
    } else if d in FindAll(content, NewPattern, 0) {
      assert IsCapture(NewPattern, d);
      AllExcludes(d, IsWord, '.');
    } else {
      assert IsCapture(ExtendsPattern, d);
      AllExcludes(d, IsWord, '.');
    }
  }

  /** Only the import rule can capture a dotted name, so a dotted dependency
      is the opening import, and an import written after the `package` line
      is not a dependency at all. */
  lemma DottedOnlyFromImport(content: string, d: string)
    requires d in DepsIn(content) && '.' in d
    ensures ImportCaptures(content) == [d]
  {
    if d !in ImportCaptures(content) {
      UndottedCaptures(content, d);
    }
  }
}
