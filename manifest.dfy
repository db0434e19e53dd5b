/** The manifest builder: records every emitted file under its logical name
    in a seed record, then stores the per-entry-point asset table under the
    key "entrypoints". */
module ManifestBuilder {
  import opened Assets

  /** The top-level key under which the entry-point table is stored. */
  const EntrypointsKey: string := "entrypoints"

  /** One emitted output file: its logical name and its public path. */
  datatype FileDescriptor = FileDescriptor(name: string, path: string)

  /** One entry point with the raw output files produced for it, in the
      order the bundler lists them. */
  datatype EntryPoint = EntryPoint(name: string, files: seq<string>)

  /** A value of the manifest record: the public path of an emitted file,
      or the entry-point table. */
  datatype Value = Path(path: string) | Entrypoints(table: map<string, EntryRecord>)

  /** The record after writing `record[file.name] = file.path` for each
      emitted file, in order. */
  function WithFiles(record: map<string, Value>, files: seq<FileDescriptor>): map<string, Value>
    decreases |files|
  {
    if files == [] then record
    else
      var last := files[|files| - 1];
      WithFiles(record, files[..|files| - 1])[last.name := Path(last.path)]
  }

  /** The entry-point table after writing `table[name] = RecordFor(files)`
      for each entry point, in order. */
  function EntrypointsTable(entries: seq<EntryPoint>, publicPath: string): map<string, EntryRecord>
    decreases |entries|
  {
    if entries == [] then map[]
    else
      var last := entries[|entries| - 1];
      EntrypointsTable(entries[..|entries| - 1], publicPath)[last.name := RecordFor(last.files, publicPath)]
  }

  /** The whole manifest built from a seed record. */
  function Generated(seed: map<string, Value>, files: seq<FileDescriptor>,
                     entries: seq<EntryPoint>, publicPath: string): map<string, Value>
  {
    WithFiles(seed, files)[EntrypointsKey := Entrypoints(EntrypointsTable(entries, publicPath))]
  }

  /** Object.entries of a record never repeats a key. */
  predicate DistinctNames(entries: seq<EntryPoint>)
  {
    forall i, j :: 0 <= i < j < |entries| ==> entries[i].name != entries[j].name
  }

  /** The manifest record, updated in place. */
  class Manifest {
    var entries: map<string, Value>

    /** The fresh empty record used when no seed is given. */
    constructor Empty()
      ensures entries == map[]
    {
      entries := map[];
    }

    /** Writes every emitted file into the record under its name. */
    method RecordFiles(files: seq<FileDescriptor>)
      modifies this
      ensures entries == WithFiles(old(entries), files)
    {
      var i := 0;
      while i < |files|
        invariant 0 <= i <= |files|
        invariant entries == WithFiles(old(entries), files[..i])
      {
        assert files[..i + 1][..i] == files[..i];
        entries := entries[files[i].name := Path(files[i].path)];
        i := i + 1;
      }
      assert files[..i] == files;
    }

    /** Stores the entry-point table under the "entrypoints" key. */
    method SetEntrypoints(table: map<string, EntryRecord>)
      modifies this
      ensures entries == old(entries)[EntrypointsKey := Entrypoints(table)]
    {
      entries := entries[EntrypointsKey := Entrypoints(table)];
    }
  }

  /** Builds the entry-point table, one entry point at a time. */
  method BuildEntrypoints(entries: seq<EntryPoint>, publicPath: string)
    returns (table: map<string, EntryRecord>)
    ensures table == EntrypointsTable(entries, publicPath)
  {
    table := map[];
    var i := 0;
    while i < |entries|
      invariant 0 <= i <= |entries|
      invariant table == EntrypointsTable(entries[..i], publicPath)
    {
      assert entries[..i + 1][..i] == entries[..i];
      table := table[entries[i].name := RecordFor(entries[i].files, publicPath)];
      i := i + 1;
    }
    assert entries[..i] == entries;
  }

  /** The manifest generator: the seed itself is updated and returned, and a
      missing seed is replaced by a fresh empty record. */
  method GenerateManifest(seed: Manifest?, files: seq<FileDescriptor>,
                          entries: seq<EntryPoint>, publicPath: string)
    returns (manifest: Manifest)
    modifies seed
    ensures seed != null ==> manifest == seed
    ensures seed == null ==> fresh(manifest)
    ensures manifest.entries ==
            Generated(if seed == null then map[] else old(seed.entries), files, entries, publicPath)
  {
    if seed == null {
      manifest := new Manifest.Empty();
    } else {
      manifest := seed;
    }
    manifest.RecordFiles(files);
    var table := BuildEntrypoints(entries, publicPath);
    manifest.SetEntrypoints(table);
  }

  /** Last write wins: a name maps to the path of the last emitted file that
      carries it. */
  lemma {:induction false} FileLastWriteWins(record: map<string, Value>, files: seq<FileDescriptor>, i: nat)
    requires i < |files|
    requires forall j :: i < j < |files| ==> files[j].name != files[i].name
    ensures files[i].name in WithFiles(record, files) &&
            WithFiles(record, files)[files[i].name] == Path(files[i].path)
    decreases |files|
  {
    if i < |files| - 1 {
      var init := files[..|files| - 1];
      assert forall j :: i < j < |init| ==> init[j] == files[j];
      FileLastWriteWins(record, init, i);
    }
  }

  /** A key that no emitted file carries keeps its value, or stays absent. */
  lemma {:induction false} UntouchedKeyKept(record: map<string, Value>, files: seq<FileDescriptor>, key: string)
    requires forall j :: 0 <= j < |files| ==> files[j].name != key
    ensures key in WithFiles(record, files) <==> key in record
    ensures key in record ==> WithFiles(record, files)[key] == record[key]
    decreases |files|
  {
    if files != [] {
      var init := files[..|files| - 1];
      assert forall j :: 0 <= j < |init| ==> init[j] == files[j];
      UntouchedKeyKept(record, init, key);
    }
  }

  /** The record's keys afterwards are the seed's keys and the file names. */
  lemma {:induction false} WithFilesKeys(record: map<string, Value>, files: seq<FileDescriptor>)
    ensures WithFiles(record, files).Keys == record.Keys + set f | f in files :: f.name
    decreases |files|
  {
    if files != [] {
      var init := files[..|files| - 1];
      var last := files[|files| - 1];
      WithFilesKeys(record, init);
      assert forall f :: f in files <==> f in init || f == last by {
        assert files == init + [last];
      }
      assert (set f | f in files :: f.name) == (set f | f in init :: f.name) + {last.name};
    }
  }

  /** Every entry point gets a record, and there are no others. */
  lemma {:induction false} EveryEntryRecorded(entries: seq<EntryPoint>, publicPath: string)
    ensures EntrypointsTable(entries, publicPath).Keys == set e | e in entries :: e.name
    decreases |entries|
  {
    if entries != [] {
      var init := entries[..|entries| - 1];
      var last := entries[|entries| - 1];
      EveryEntryRecorded(init, publicPath);
      assert forall e :: e in entries <==> e in init || e == last by {
        assert entries == init + [last];
      }
      assert (set e | e in entries :: e.name) == (set e | e in init :: e.name) + {last.name};
    }
  }

  /** An entry point's record is the one built from its own file list (from
      the last occurrence of its name, were a name ever repeated). */
  lemma {:induction false} EntryLastWriteWins(entries: seq<EntryPoint>, publicPath: string, i: nat)
    requires i < |entries|
    requires forall j :: i < j < |entries| ==> entries[j].name != entries[i].name
    ensures entries[i].name in EntrypointsTable(entries, publicPath) &&
            EntrypointsTable(entries, publicPath)[entries[i].name] == RecordFor(entries[i].files, publicPath)
    decreases |entries|
  {
    if i < |entries| - 1 {
      var init := entries[..|entries| - 1];
      assert forall j :: i < j < |init| ==> init[j] == entries[j];
      EntryLastWriteWins(init, publicPath, i);
    }
  }

  /** With distinct entry-point names, as Object.entries yields them, each
      entry point maps to the record of its own files. */
  lemma EntryLookup(entries: seq<EntryPoint>, publicPath: string, i: nat)
    requires DistinctNames(entries)
    requires i < |entries|
    ensures entries[i].name in EntrypointsTable(entries, publicPath) &&
            EntrypointsTable(entries, publicPath)[entries[i].name] == RecordFor(entries[i].files, publicPath)
  {
    EntryLastWriteWins(entries, publicPath, i);
  }

  /** The "entrypoints" key holds the built table, even when an emitted file
      is itself named "entrypoints". */
  lemma EntrypointsKeyHoldsTable(seed: map<string, Value>, files: seq<FileDescriptor>,
                                 entries: seq<EntryPoint>, publicPath: string, i: nat)
    requires i < |files| && files[i].name == EntrypointsKey
    ensures Generated(seed, files, entries, publicPath)[EntrypointsKey] ==
            Entrypoints(EntrypointsTable(entries, publicPath))
    ensures EntrypointsKey in WithFiles(seed, files) &&
            WithFiles(seed, files)[EntrypointsKey] != Generated(seed, files, entries, publicPath)[EntrypointsKey]
  {
    var k := LastWithName(files, i);
    FileLastWriteWins(seed, files, k);
  }

  /** The position of the last emitted file that has the same name as files[i]. */
  lemma {:induction false} LastWithName(files: seq<FileDescriptor>, i: nat) returns (k: nat)
    requires i < |files|
    ensures i <= k < |files| && files[k].name == files[i].name
    ensures forall j :: k < j < |files| ==> files[j].name != files[i].name
    decreases |files| - i
  {
    if j :| i < j < |files| && files[j].name == files[i].name {
      k := LastWithName(files, j);
    } else {
      k := i;
    }
  }

  /** In the generated manifest an emitted file's name (other than
      "entrypoints") maps to the path of the last file with that name. */
  lemma GeneratedFileEntry(seed: map<string, Value>, files: seq<FileDescriptor>,
                           entries: seq<EntryPoint>, publicPath: string, i: nat)
    requires i < |files| && files[i].name != EntrypointsKey
    requires forall j :: i < j < |files| ==> files[j].name != files[i].name
    ensures files[i].name in Generated(seed, files, entries, publicPath) &&
            Generated(seed, files, entries, publicPath)[files[i].name] == Path(files[i].path)
  {
    FileLastWriteWins(seed, files, i);
  }

  /** Nothing else changes: a seed key that is neither an emitted file's name
      nor "entrypoints" keeps its value, and no such key appears that the
      seed did not hold. */
  lemma GeneratedSeedKeyKept(seed: map<string, Value>, files: seq<FileDescriptor>,
                             entries: seq<EntryPoint>, publicPath: string, key: string)
    requires key != EntrypointsKey
    requires forall j :: 0 <= j < |files| ==> files[j].name != key
    ensures key in Generated(seed, files, entries, publicPath) <==> key in seed
    ensures key in seed ==> Generated(seed, files, entries, publicPath)[key] == seed[key]
  {
    UntouchedKeyKept(seed, files, key);
  }

  /** Feeding a generated manifest back in as the seed, with the same build
      output, reproduces it unchanged. */
  lemma GenerateIdempotent(seed: map<string, Value>, files: seq<FileDescriptor>,
                           entries: seq<EntryPoint>, publicPath: string)
    ensures Generated(Generated(seed, files, entries, publicPath), files, entries, publicPath) ==
            Generated(seed, files, entries, publicPath)
  {
    var once := Generated(seed, files, entries, publicPath);
    var twice := Generated(once, files, entries, publicPath);
    forall key | key in once || key in twice
      ensures key in once && key in twice && twice[key] == once[key]
    {
      RegeneratedKey(seed, files, entries, publicPath, key);
    }
    assert twice == once;
  }

  /** One key of GenerateIdempotent. */
  lemma RegeneratedKey(seed: map<string, Value>, files: seq<FileDescriptor>,
                       entries: seq<EntryPoint>, publicPath: string, key: string)
    requires key in Generated(seed, files, entries, publicPath) ||
             key in Generated(Generated(seed, files, entries, publicPath), files, entries, publicPath)
    ensures key in Generated(seed, files, entries, publicPath)
    ensures key in Generated(Generated(seed, files, entries, publicPath), files, entries, publicPath)
    ensures Generated(Generated(seed, files, entries, publicPath), files, entries, publicPath)[key] ==
            Generated(seed, files, entries, publicPath)[key]
  {
    var once := Generated(seed, files, entries, publicPath);
    if key == EntrypointsKey {
    } else if j :| 0 <= j < |files| && files[j].name == key {
      var k := LastWithName(files, j);
      GeneratedFileEntry(seed, files, entries, publicPath, k);
      GeneratedFileEntry(once, files, entries, publicPath, k);
    } else {
      GeneratedSeedKeyKept(seed, files, entries, publicPath, key);
      GeneratedSeedKeyKept(once, files, entries, publicPath, key);
    }
  }
}
