# Chimera Vertex dependency mapping, in Dafny

Chimera Vertex is a static analyser for decompiled (and often obfuscated)
Java sources. It comes as two scripts. Both walk a source folder and read
every `.java` file. For each file they record:

- its package, from the first `package …;` line;
- its dependencies, as found by four regular expressions over the whole
  text (`import`, `new`, `extends`, `implements`).

The resulting file-to-record mapping is written out as `resultat.json`, and
a dependency graph is drawn from it. `omgsm_chimera_vertex_apk0.py` draws a
static `networkx` graph. `omgsm_chimera_vertex_apk1.py` draws an
interactive `pyvis` page. Both scripts carry the same extractor and the
same mapping loop. The model cites the apk0 copy for those and the apk1
script for the interactive graph.

The model has eight modules, in six files:

- `Text`: the character classes of the patterns (`\s`, `\w`, `[\w.]`,
  `[\w\s,]`). Also `readlines`, `''.join`, `str.split(",")`,
  `str.strip()`, and `sorted` on strings ordered by code point.
- `Patterns`: the five patterns as matchers that follow Python's
  backtracking engine, and `re.findall` (left to right, non-overlapping).
  Each matcher is proved equal to a declarative reference predicate.
- `Extractor`: `extract_package_and_deps`. The package is scanned
  line by line and the scan stops at the first match. The dependency set
  is the union of the four rules. An `implements` capture is split on
  commas and stripped. A read error gives `("", {})`.
- `Mapping`: the loop of `main`. It stores `{"package", "dependencies":
  sorted(list(deps))}` under each relative path, with Python `dict`
  semantics.
- `StaticGraph`: `generate_dependency_graph`, building a `DiGraph` class
  with node and edge sets.
- `InteractiveGraph`: `generate_interactive_html_graph`, building a
  `Network` class with a node set and an edge list.
- `GraphModel` defines the edges and node sets that both graph builders
  are proved against.
- `Examples`: worked inputs for the cases below.

What the code does that a reader of the patterns might not expect:

- **Import rule.** It is compiled without `re.MULTILINE`, so `^` matches
  only at the very start of the whole text. A file contributes at most
  one import dependency: the one that opens the file, before any `package`
  line. In a file that starts with `package com.a;` followed by
  `import com.b.Bar;`, `com.b.Bar` is therefore not a dependency
  (`Examples.ImportAfterPackageIgnored`).
- **Unreadable file.** The exception is caught inside the extractor, and
  the file is stored with an empty package and no dependencies
  (`Mapping.UnreadableFileRecorded`).
- **`new` and `extends`.** They have no word boundary before the keyword,
  so `renew Foo` yields `Foo`.
- **`implements` lists.** The capture runs over whitespace and commas,
  across line breaks. When the keyword is followed by two or more
  whitespace characters (a line break included) and then a character
  outside `[\w\s,]` or the end of the text, `\s+` gives back its last
  whitespace character to the group. The stripped
  entry is then `""`, and the empty string becomes a dependency
  (`Examples.ImplementsEmptyEntry`).
- **Names are not unified.** A dependency from the import rule is a
  dotted path. Those from the other rules are bare names. No dotted name
  ever comes from `new`, `extends` or `implements`
  (`Extractor.UndottedCaptures`).

## Model

| member | source | states |
|---|---|---|
| Text.IsSpace | static_post_analyzer_python/omgsm_chimera_vertex_apk0.py:28-32 | `\s`: the characters Python counts as whitespace in `str` patterns, which are also those `str.strip()` removes |
| Text.IsWord | static_post_analyzer_python/omgsm_chimera_vertex_apk0.py:28-32 | `\w`, restricted to ASCII letters, digits and `_` |
| Text.IsUpper | static_post_analyzer_python/omgsm_chimera_vertex_apk0.py:30-31 | `[A-Z]` |
| Text.IsNameChar | static_post_analyzer_python/omgsm_chimera_vertex_apk0.py:28-29 | `[\w.]`, the characters of a package or import name |
| Text.IsListChar | static_post_analyzer_python/omgsm_chimera_vertex_apk0.py:32 | `[\w\s,]`, the characters of an `implements` list |
| Text.Lines | static_post_analyzer_python/omgsm_chimera_vertex_apk0.py:39 | `readlines`: every line is non-empty with a `\n` only at its end, and every line but the last ends in `\n` |
| Text.Concat | static_post_analyzer_python/omgsm_chimera_vertex_apk0.py:40 | `''.join(lines)`: the lines one after the other |
| Text.LinesRoundTrip | static_post_analyzer_python/omgsm_chimera_vertex_apk0.py:39-40 | joining the lines of `readlines` gives the text back, so the whole-text patterns see exactly the file's text |
| Text.Split | static_post_analyzer_python/omgsm_chimera_vertex_apk0.py:52 | `str.split(",")`: at least one piece, and no piece contains the separator |
| Text.JoinSplit | static_post_analyzer_python/omgsm_chimera_vertex_apk0.py:52 | the pieces of `group.split(",")`, joined again with commas, are the group |
| Text.SplitJoin | static_post_analyzer_python/omgsm_chimera_vertex_apk0.py:52 | splitting a comma-join of comma-free pieces gives exactly those pieces, so the split loses and invents nothing |
| Text.Strip | static_post_analyzer_python/omgsm_chimera_vertex_apk0.py:52 | `str.strip()`: the result is the slice of the string after its leading whitespace, only whitespace follows it, and it neither starts nor ends with whitespace |
| Text.StripEmpty | static_post_analyzer_python/omgsm_chimera_vertex_apk0.py:52 | `str.strip()` gives the empty string exactly when the piece is all whitespace |
| Text.StripIdempotent | static_post_analyzer_python/omgsm_chimera_vertex_apk0.py:52 | stripping an entry twice is the same as stripping it once |
| Text.Less | static_post_analyzer_python/omgsm_chimera_vertex_apk0.py:106 | Python's `<` on strings (code point by code point, a proper prefix first) is strict: a string is never less than itself |
| Text.LessTransitive | static_post_analyzer_python/omgsm_chimera_vertex_apk0.py:106 | Python's string `<` (lexicographic by code point) is transitive |
| Text.LessTotal | static_post_analyzer_python/omgsm_chimera_vertex_apk0.py:106 | any two distinct strings are ordered one way or the other |
| Text.SortedList | static_post_analyzer_python/omgsm_chimera_vertex_apk0.py:106 | `sorted(list(deps))` is strictly ascending, holds exactly the elements of the set, and has one entry per element |
| Text.StrictlyAscendingUnique | static_post_analyzer_python/omgsm_chimera_vertex_apk0.py:106 | two strictly ascending lists with the same elements are equal, so the sorted list is determined by the set |
| Patterns.MatchAt | static_post_analyzer_python/omgsm_chimera_vertex_apk0.py:30-32 | a match of `new`, `extends` or `implements` at an offset gives a non-empty group at or after that offset, within the text |
| Patterns.MatchDeclaration | static_post_analyzer_python/omgsm_chimera_vertex_apk0.py:28-29 | a captured package or import name is non-empty and made only of word characters and dots |
| Patterns.MatchDeclarationSound | static_post_analyzer_python/omgsm_chimera_vertex_apk0.py:28-29 | every name `re_package.match` / `re_import` reports comes from leading whitespace, the keyword, at least one whitespace character, the name and a `;` at the start of the string |
| Patterns.MatchDeclarationComplete | static_post_analyzer_python/omgsm_chimera_vertex_apk0.py:28-29 | every such declaration at the start of the string is found, and the name reported is its name |
| Patterns.CapitalisedMatchIff | static_post_analyzer_python/omgsm_chimera_vertex_apk0.py:30-31 | a `new`/`extends` match at an offset captures exactly the maximal capitalised word after the keyword and at least one whitespace character, in both directions |
| Patterns.ImplementsMatchSound | static_post_analyzer_python/omgsm_chimera_vertex_apk0.py:32 | every `implements` match is a match under the backtracking reading of `implements\s+([\w\s,]+)` |
| Patterns.ImplementsMatchComplete | static_post_analyzer_python/omgsm_chimera_vertex_apk0.py:32 | every match under that reading, including the one where `\s+` gives back a space, is the one the matcher reports |
| Patterns.ImplementsMatchIff | static_post_analyzer_python/omgsm_chimera_vertex_apk0.py:32 | the `implements` matcher and the backtracking reading agree in both directions |
| Patterns.FindAll | static_post_analyzer_python/omgsm_chimera_vertex_apk0.py:48-50 | every group `findall` returns is a capture of its pattern (a capitalised word, or a non-empty run of word, whitespace and comma characters) |
| Patterns.CaptureShape | static_post_analyzer_python/omgsm_chimera_vertex_apk0.py:30-32 | the group of any match is a capture of its pattern |
| Patterns.FindAllLeftmost | static_post_analyzer_python/omgsm_chimera_vertex_apk0.py:48-50 | `findall` reports the leftmost match first and resumes scanning where that match ended, so matches never overlap |
| Patterns.FindAllSound | static_post_analyzer_python/omgsm_chimera_vertex_apk0.py:48-50 | every group `findall` reports is the group of an actual match at or after the scan start |
| Patterns.FindAllNone | static_post_analyzer_python/omgsm_chimera_vertex_apk0.py:48-50 | where no match starts, `findall` reports nothing |
| Patterns.ImportCaptures | static_post_analyzer_python/omgsm_chimera_vertex_apk0.py:47 | `re_import.findall` returns at most one name, a non-empty dotted name |
| Extractor.PackageIn | static_post_analyzer_python/omgsm_chimera_vertex_apk0.py:42-45 | the package found by the line scan is `""` or a dotted name |
| Extractor.PackageFirstMatch | static_post_analyzer_python/omgsm_chimera_vertex_apk0.py:42-45 | the package is the name on the first matching line; later `package` lines are ignored |
| Extractor.PackageEmptyIff | static_post_analyzer_python/omgsm_chimera_vertex_apk0.py:42-45 | the package stays `""` exactly when no line matches the package rule |
| Extractor.ScanPackage | static_post_analyzer_python/omgsm_chimera_vertex_apk0.py:42-45 | the loop that breaks at the first match returns the first-match package |
| Extractor.Pieces | static_post_analyzer_python/omgsm_chimera_vertex_apk0.py:52 | one stripped entry per comma-separated part of an `implements` capture, and at least one |
| Extractor.PiecesShape | static_post_analyzer_python/omgsm_chimera_vertex_apk0.py:52 | one entry per comma-separated part; no entry holds a comma or starts with whitespace, and an entry is empty exactly when its part is all whitespace |
| Extractor.ImplementsDeps | static_post_analyzer_python/omgsm_chimera_vertex_apk0.py:50-52 | the set the `for group in impls` loop adds: the stripped comma-separated entries of every capture; characterised by `ImplementsDepsIff` |
| Extractor.ImplementsDepsStep | static_post_analyzer_python/omgsm_chimera_vertex_apk0.py:51-52 | adding one capture's entries extends the union of the processed captures by that capture |
| Extractor.ImplementsDepsIff | static_post_analyzer_python/omgsm_chimera_vertex_apk0.py:50-52 | a string is an `implements` dependency exactly when it is a stripped entry of some capture |
| Extractor.AddImplementsEntries | static_post_analyzer_python/omgsm_chimera_vertex_apk0.py:50-52 | the loop over captures adds to the set exactly the entries of all captures |
| Extractor.DepsIn | static_post_analyzer_python/omgsm_chimera_vertex_apk0.py:47-52 | the dependency set of a text: the union of the opening import, every `new` and `extends` capture, and every stripped entry of every `implements` capture; the properties are stated by `ExtractPackageAndDeps`, `UndottedCaptures` and `DottedOnlyFromImport` |
| Extractor.PackageOf | static_post_analyzer_python/omgsm_chimera_vertex_apk0.py:34-56 | the package `extract_package_and_deps` returns: the first-match package of the file's lines, or `""` when the file cannot be read |
| Extractor.DepsOf | static_post_analyzer_python/omgsm_chimera_vertex_apk0.py:34-56 | the dependency set `extract_package_and_deps` returns: the dependencies of the text, or the empty set when the file cannot be read |
| Extractor.ExtractPackageAndDeps | static_post_analyzer_python/omgsm_chimera_vertex_apk0.py:34-56 | the result is the first-match package and the union of the import, `new`, `extends` and `implements` dependencies of the text; a read error gives `("", {})` |
| Extractor.ImportOnlyAtStart | static_post_analyzer_python/omgsm_chimera_vertex_apk0.py:29 | the import rule yields a name exactly when the text opens (after optional whitespace) with an `import` of that name |
| Extractor.SplitChars | static_post_analyzer_python/omgsm_chimera_vertex_apk0.py:52 | splitting on commas introduces no character that was not in the capture |
| Extractor.StripChars | static_post_analyzer_python/omgsm_chimera_vertex_apk0.py:52 | stripping introduces no character |
| Extractor.PieceChars | static_post_analyzer_python/omgsm_chimera_vertex_apk0.py:50-52 | every character of an `implements` entry comes from its capture |
| Extractor.UndottedCaptures | static_post_analyzer_python/omgsm_chimera_vertex_apk0.py:48-52 | no dependency found by `new`, `extends` or `implements` contains a `.` |
| Extractor.DottedOnlyFromImport | static_post_analyzer_python/omgsm_chimera_vertex_apk0.py:47-52 | a dotted dependency can only be the import that opens the file |
| Mapping.Put | static_post_analyzer_python/omgsm_chimera_vertex_apk0.py:104-107 | `d[key] = value` maps the key to the new value; a new key goes last and an existing key keeps its place |
| Mapping.RecordOf | static_post_analyzer_python/omgsm_chimera_vertex_apk0.py:102-107 | a file's record holds its package and a sorted, duplicate-free list of exactly its dependencies |
| Mapping.MappingOf | static_post_analyzer_python/omgsm_chimera_vertex_apk0.py:101-107 | the mapping after the loop: each file in turn stored under its path with its record; the properties are stated by `MappingKeys`, `MappingInputOrder` and `MappingLastWriteWins` |
| Mapping.MappingOfStep | static_post_analyzer_python/omgsm_chimera_vertex_apk0.py:101-107 | one more file processed is one more store of that file's record |
| Mapping.BuildMapping | static_post_analyzer_python/omgsm_chimera_vertex_apk0.py:101-107 | the loop over the files gives the mapping of all files processed in order |
| Mapping.MappingKeys | static_post_analyzer_python/omgsm_chimera_vertex_apk0.py:101-104 | the keys of the mapping are exactly the paths of the files, and there are no more keys than files |
| Mapping.MappingInputOrder | static_post_analyzer_python/omgsm_chimera_vertex_apk0.py:101-104 | with distinct paths, there is one key per file, in input order |
| Mapping.MappingLastWriteWins | static_post_analyzer_python/omgsm_chimera_vertex_apk0.py:104-107 | a path's record is the one extracted from the last file with that path |
| Mapping.UnreadableFileRecorded | static_post_analyzer_python/omgsm_chimera_vertex_apk0.py:53-56 | a file that cannot be read still gets an entry, with package `""` and no dependencies |
| Mapping.ExportDeterministic | static_post_analyzer_python/omgsm_chimera_vertex_apk0.py:106 | any sorted, duplicate-free list of a file's dependencies is the stored list, whatever order `list(deps)` produced |
| GraphModel.FileEdges | static_post_analyzer_python/omgsm_chimera_vertex_apk0.py:64-65 | one edge from the file to each dependency, in list order |
| GraphModel.EdgeList | static_post_analyzer_python/omgsm_chimera_vertex_apk0.py:62-65 | the (file, dependency) pairs in the order both builders add them; every edge starts at a file |
| GraphModel.FilesAndDeps | static_post_analyzer_python/omgsm_chimera_vertex_apk1.py:66-69 | the nodes `pyvis` receives: every file is among them |
| GraphModel.EdgeEnds | static_post_analyzer_python/omgsm_chimera_vertex_apk0.py:62-65 | the nodes `add_edge` creates; all of them are also nodes of the interactive graph |
| GraphModel.Edges | static_post_analyzer_python/omgsm_chimera_vertex_apk0.py:62-65 | the edge set of the `DiGraph`: the (file, dependency) pairs as a set; characterised by `EdgesIff` and `EdgeCount` |
| GraphModel.PrefixStep | static_post_analyzer_python/omgsm_chimera_vertex_apk0.py:62-65 | processing one more file adds exactly its edges and its nodes |
| GraphModel.FileEdgesStep | static_post_analyzer_python/omgsm_chimera_vertex_apk0.py:64-65 | one more dependency adds exactly one edge |
| GraphModel.EdgeListIff | static_post_analyzer_python/omgsm_chimera_vertex_apk0.py:62-65 | an edge (f, d) is added exactly when f is a file and d is in its dependency list |
| GraphModel.EdgeListDistinct | static_post_analyzer_python/omgsm_chimera_vertex_apk1.py:66-70 | with distinct files and duplicate-free lists, no edge is added twice |
| GraphModel.EdgeListLength | static_post_analyzer_python/omgsm_chimera_vertex_apk1.py:66-70 | one edge is added per dependency-list entry |
| GraphModel.AscendingDistinct | static_post_analyzer_python/omgsm_chimera_vertex_apk0.py:106 | a sorted dependency list has no duplicates |
| GraphModel.EdgeCount | static_post_analyzer_python/omgsm_chimera_vertex_apk0.py:62-65 | the static graph has exactly as many edges as there are dependency-list entries |
| GraphModel.EdgesIff | static_post_analyzer_python/omgsm_chimera_vertex_apk0.py:62-65 | the edge set is exactly the set of pairs (f, d) with d in the list of f |
| GraphModel.EdgeEndsIff | static_post_analyzer_python/omgsm_chimera_vertex_apk0.py:62-65 | a node of the static graph is exactly an end of some edge |
| GraphModel.IsolatedFileNotStaticNode | static_post_analyzer_python/omgsm_chimera_vertex_apk0.py:62-65 | a file with no dependencies that nothing depends on is missing from the static graph |
| GraphModel.FilesAndDepsIff | static_post_analyzer_python/omgsm_chimera_vertex_apk1.py:66-69 | a node of the interactive graph is exactly a file or a dependency of some file |
| GraphModel.StaticNodesWithinInteractive | static_post_analyzer_python/omgsm_chimera_vertex_apk1.py:66-70 | every static-graph node is an interactive-graph node, and every file is an interactive-graph node |
| StaticGraph.DiGraph.constructor | static_post_analyzer_python/omgsm_chimera_vertex_apk0.py:60 | `nx.DiGraph()`: a graph with no nodes and no edges |
| StaticGraph.DiGraph.AddEdge | static_post_analyzer_python/omgsm_chimera_vertex_apk0.py:65 | `add_edge` adds both ends as nodes, if absent, and the edge |
| StaticGraph.AddFileEdges | static_post_analyzer_python/omgsm_chimera_vertex_apk0.py:63-65 | the inner loop adds one edge per dependency, and the file node only when there is at least one |
| StaticGraph.GenerateDependencyGraph | static_post_analyzer_python/omgsm_chimera_vertex_apk0.py:60-65 | the graph's edges are exactly the (file, dependency) pairs, and its nodes exactly the ends of those edges |
| InteractiveGraph.Network.constructor | static_post_analyzer_python/omgsm_chimera_vertex_apk1.py:59 | `Network(...)`: a network with no nodes and no edges |
| InteractiveGraph.Network.AddNode | static_post_analyzer_python/omgsm_chimera_vertex_apk1.py:67-69 | `add_node` adds the node if absent and leaves the edges alone |
| InteractiveGraph.Network.AddEdge | static_post_analyzer_python/omgsm_chimera_vertex_apk1.py:70 | `add_edge` between existing nodes appends the edge and leaves the nodes alone |
| InteractiveGraph.AddFile | static_post_analyzer_python/omgsm_chimera_vertex_apk1.py:67-70 | one file adds its own node, each dependency's node, and one edge per dependency in list order |
| InteractiveGraph.GenerateInteractiveHtmlGraph | static_post_analyzer_python/omgsm_chimera_vertex_apk1.py:59-70 | the network's edges are the (file, dependency) pairs in key order then list order, and its nodes are exactly the files and their dependencies |
| Examples.NewMatchesInsideWord | static_post_analyzer_python/omgsm_chimera_vertex_apk0.py:30 | `new` is found inside `renew`: `renew Foo` yields `Foo` |
| Examples.NewNeedsCapital | static_post_analyzer_python/omgsm_chimera_vertex_apk0.py:30 | `new foo` yields nothing |
| Examples.ImplementsGroup | static_post_analyzer_python/omgsm_chimera_vertex_apk0.py:32 | `implements A , B {` captures `A , B ` with its trailing space |
| Examples.GroupSplit | static_post_analyzer_python/omgsm_chimera_vertex_apk0.py:52 | that capture splits into `A ` and ` B ` |
| Examples.ImplementsGroupPieces | static_post_analyzer_python/omgsm_chimera_vertex_apk0.py:52 | its stripped entries are `A` and `B` |
| Examples.ImplementsEmptyEntry | static_post_analyzer_python/omgsm_chimera_vertex_apk0.py:50-52 | `implements` with two spaces before `{` captures one space, and `""` becomes a dependency |
| Examples.ImplementsNoEntry | static_post_analyzer_python/omgsm_chimera_vertex_apk0.py:32 | with a single space before `{` there is no match |
| Examples.PackageFromFirstLine | static_post_analyzer_python/omgsm_chimera_vertex_apk0.py:39-45 | a file whose first line is a package declaration takes its package from that line |
| Examples.PackageOnFirstLine | static_post_analyzer_python/omgsm_chimera_vertex_apk0.py:42-45 | the file `package com.a;` / `import com.b.Bar;` has package `com.a` |
| Examples.NoOpeningImport | static_post_analyzer_python/omgsm_chimera_vertex_apk0.py:29 | a text that opens with neither whitespace nor `i` has no import dependency |
| Examples.ImportAfterPackageIgnored | static_post_analyzer_python/omgsm_chimera_vertex_apk0.py:47 | in that file `com.b.Bar` is not a dependency |

## Left out

- Interaction and file discovery are not modelled: `os.system("clear")`,
  the banner, `Prompt.ask`, `Path.resolve`, the existence check,
  `rglob("*.java")`, `relative_to` and `sleep`. The scanned files come in
  as a sequence of (relative path, read outcome) pairs.
- File reading is a parameter. The extractor receives either the decoded
  text or a read error. UTF-8 decoding with `errors='ignore'` and
  universal-newline translation happen before that and are not modelled.
  `readlines` is modelled on `\n`-normalised text.
- The console message printed on a read error is not modelled.
- `IsWord`: `\w` is modelled as ASCII letters, digits and `_`. Python's
  `\w` on `str` also matches non-ASCII letters and digits. Where a name
  holds such a character, the model departs from the program in four
  ways:
  - a `package` or opening `import` declaration with such a name does not
    match at all in the model (no `;` follows the ASCII part), so the
    package comes from a later line or stays `""`, and the import is lost;
  - a `new` or `extends` capture stops before the character, so the
    dependency is the ASCII prefix of the name;
  - an `implements` capture stops at the character and `findall` resumes
    there, so the entries after it in the same list are lost
    (`implements Aé, B {` gives `A` here, `Aé` and `B` in the program);
  - `findall` resumes at the non-ASCII character, not after the whole name
    or list, so a keyword in the rest of it starts a new match and the
    model can report dependencies the program does not (`new Aénew Foo`
    gives `A` and `Foo` here, `Aénew` in the program; `implements Aé
    implements B {` gives `A` and `B` here, the one entry
    `Aé implements B` in the program).
- `\s` and `str.strip()` are both modelled by the one whitespace set
  Python uses for `str.isspace()`.
- Writing `resultat.json` (`json.dump` with `indent=2`) is not modelled.
  The mapping itself, with its key order, is what the model exports.
- `networkx` layout (`spring_layout`), drawing, titles and saving the PNG
  are not modelled.
- `pyvis` display details are not modelled: the constructor options,
  `barnes_hut`, labels, titles, shapes and `show`.
- `tqdm` progress bars are not modelled.
- Node insertion order is not modelled. Graph nodes are sets, while
  `networkx` and `pyvis` keep nodes in insertion order.
- `pyvis` node attributes are not modelled. When `add_node` is called
  again with an id that already exists, it keeps the existing node; the
  model does the same.
- The edges of the interactive graph are modelled as the ordered list of
  added pairs. Whether `pyvis` would drop a repeated pair does not matter,
  because no pair is added twice (`GraphModel.EdgeListDistinct`).
