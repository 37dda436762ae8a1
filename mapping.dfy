/** The loop of `main` that fills `file_dependencies`: one entry per scanned
    file, keyed by its path relative to the scanned root, holding its package
    and its sorted dependency list. This mapping is what is written out as
    `resultat.json` and what both graph builders read. */
module Mapping {
  import opened Text
  import opened Extractor

  /** One file of the scan: its path relative to the root, and what reading
      it gave. */
  datatype SourceFile = SourceFile(path: string, file: ReadOutcome)

  /** The value stored for a file: `{"package": ..., "dependencies": [...]}`. */
  datatype Record = Record(package: string, dependencies: seq<string>)

  /** A Python `dict` from path to record: the keys in insertion order and
      the key-to-value map. */
  datatype FileMap = FileMap(keys: seq<string>, records: map<string, Record>) {
    /** The keys are those of the map, each once; every dependency list is
        sorted without duplicates. */
    predicate Valid() {
      && Distinct(keys)
      && Elements(keys) == records.Keys
      && forall k :: k in records ==> StrictlyAscending(records[k].dependencies)
    }
  }

  type FileMapping = m: FileMap | m.Valid() witness FileMap([], map[])

  /** `d[key] = value`: a new key goes last; an existing key keeps its place
      and gets the new value. */
  function Put(m: FileMapping, key: string, value: Record): (r: FileMapping)
    requires StrictlyAscending(value.dependencies)
    ensures r.records == m.records[key := value]
    ensures r.keys == if key in m.records then m.keys else m.keys + [key]
  {
    if key in m.records then FileMap(m.keys, m.records[key := value])
    else
      var r := FileMap(m.keys + [key], m.records[key := value]);
      assert Elements(r.keys) == Elements(m.keys) + {key};
      r
  }

  /** The entry stored for one file. */
  function RecordOf(file: ReadOutcome): (r: Record)
    ensures StrictlyAscending(r.dependencies)
    ensures Elements(r.dependencies) == DepsOf(file)
    ensures r.package == PackageOf(file)
  {
    Record(PackageOf(file), SortedList(DepsOf(file)))
  }

  /** The mapping after the loop has processed `files` in order. */
  function MappingOf(files: seq<SourceFile>): FileMapping
    decreases |files|
  {
    if files == [] then FileMap([], map[])
    else
      var last := files[|files| - 1];
      Put(MappingOf(files[..|files| - 1]), last.path, RecordOf(last.file))
  }

  function Paths(files: seq<SourceFile>): (paths: seq<string>)
    ensures |paths| == |files|
    ensures forall i :: 0 <= i < |files| ==> paths[i] == files[i].path
  {
    seq(|files|, i requires 0 <= i < |files| => files[i].path)
  }

  lemma MappingOfStep(files: seq<SourceFile>, i: nat)
    requires i < |files|
    ensures MappingOf(files[..i + 1])
            == Put(MappingOf(files[..i]), files[i].path, RecordOf(files[i].file))
  {
    assert files[..i + 1][..i] == files[..i];
  }

  /** The loop of `main`: extract each file, sort its dependencies and store
      the record under the file's relative path. */
  method BuildMapping(files: seq<SourceFile>) returns (m: FileMapping)
    ensures m == MappingOf(files)
  {
    m := FileMap([], map[]);
    var i := 0;
    while i < |files|
      invariant 0 <= i <= |files|
      invariant m == MappingOf(files[..i])
    {
      var pkg, deps := ExtractPackageAndDeps(files[i].file);
      var sorted := SortedList(deps);
      assert Record(pkg, sorted) == RecordOf(files[i].file);
      m := Put(m, files[i].path, Record(pkg, sorted));
      MappingOfStep(files, i);
      i := i + 1;
    }
    assert files[..|files|] == files;
  }

  // ---------------------------------------------------------- properties

  /** The keys are exactly the paths of the input files, each once. */
  lemma {:induction false} MappingKeys(files: seq<SourceFile>)
    ensures Elements(MappingOf(files).keys) == Elements(Paths(files))
    ensures |MappingOf(files).keys| <= |files|
    decreases |files|
  {
    if files != [] {
      var init := files[..|files| - 1];
      var last := files[|files| - 1];
      MappingKeys(init);
      assert Paths(files) == Paths(init) + [last.path];
      ElementsAppend(Paths(init), last.path);
    }
  }

  /** With distinct paths (as the paths of a directory walk are), there is one
      entry per input file, in input order. */
  lemma {:induction false} MappingInputOrder(files: seq<SourceFile>)
    requires Distinct(Paths(files))
    ensures MappingOf(files).keys == Paths(files)
    decreases |files|
  {
    if files != [] {
      var init := files[..|files| - 1];
      assert Distinct(Paths(init));
      MappingInputOrder(init);
      MappingKeys(init);
      var last := files[|files| - 1].path;
      assert Paths(files) == Paths(init) + [last];
    }
  }

  /** The record of a path is the one extracted from the last file given
      with that path; with distinct paths, every file's own record. */
  lemma {:induction false} MappingLastWriteWins(files: seq<SourceFile>, i: nat)
    requires i < |files|
    requires forall j :: i < j < |files| ==> files[j].path != files[i].path
    ensures files[i].path in MappingOf(files).records
    ensures MappingOf(files).records[files[i].path] == RecordOf(files[i].file)
    decreases |files|
  {
    if i < |files| - 1 {
      MappingLastWriteWins(files[..|files| - 1], i);
    }
  }

  /** A file that cannot be read still gets its entry, with an empty package
      and no dependencies. */
  lemma UnreadableFileRecorded(files: seq<SourceFile>, i: nat)
    requires i < |files| && files[i].file.Unreadable?
    requires forall j :: i < j < |files| ==> files[j].path != files[i].path
    ensures files[i].path in MappingOf(files).records
    ensures MappingOf(files).records[files[i].path] == Record("", [])
  {
    MappingLastWriteWins(files, i);
  }

  /** The dependency list does not depend on the order in which `list(deps)`
      listed the set: any sorted duplicate-free list of the dependencies is
      the stored one, so the export is reproducible. */
  lemma ExportDeterministic(file: ReadOutcome, list: seq<string>)
    requires StrictlyAscending(list) && Elements(list) == DepsOf(file)
    ensures list == RecordOf(file).dependencies
  {
    StrictlyAscendingUnique(list, RecordOf(file).dependencies);
  }
}
