/** Copying the new version into other manifest files (`package.json`,
    `Cargo.toml`, `pyproject.toml`, a YAML file). A manifest is modelled as the
    tree its parser produces, and the set of files as a store from path to
    tree; reading, parsing, serialising and writing are left to that store. */
module VersionFileSync {
  import opened Wrappers

  /** `SupportedSyncFileFormat`. */
  datatype SyncFileFormat = Json | CargoToml | PoetryToml | Yaml

  /** `SupportedSyncFileFormat::values`, the choices offered by the set-up
      wizard: every format once, in declaration order. */
  function Values(): (r: seq<SyncFileFormat>)
    ensures forall i, j :: 0 <= i < j < |r| ==> r[i] != r[j]
  {
    [Json, CargoToml, PoetryToml, Yaml]
  }

  lemma ValuesListsEveryFormat(f: SyncFileFormat)
    ensures f in Values()
  {
    match f
    case Json => assert Values()[0] == f;
    case CargoToml => assert Values()[1] == f;
    case PoetryToml => assert Values()[2] == f;
    case Yaml => assert Values()[3] == f;
  }

  /** The `Display` text of a format: its variant name. */
  function FormatName(f: SyncFileFormat): string
  {
    match f
    case Json => "Json"
    case CargoToml => "CargoToml"
    case PoetryToml => "PoetryToml"
    case Yaml => "Yaml"
  }

  lemma FormatNamesDistinct(f: SyncFileFormat, g: SyncFileFormat)
    ensures FormatName(f) == FormatName(g) ==> f == g
  {
  }

  /** `VersionSyncFile`: which file, in which format, under which key. */
  datatype VersionSyncFile = VersionSyncFile(fileFormat: SyncFileFormat, filePath: string, versionKey: string)

  /** A parsed manifest, reduced to what the update rule touches: strings,
      tables (JSON objects, TOML tables, YAML mappings with string keys) and
      every other kind of value. */
  datatype Doc = Text(text: string) | Table(entries: map<string, Doc>) | Other

  /** `insert(key, String(version))` on a table. `None` when the value is not a
      table: the `unwrap` after `as_object_mut`, `as_table_mut` or
      `as_mapping_mut` panics. */
  function SetKey(doc: Doc, key: string, version: string): (r: Option<Doc>)
    ensures r.Some? <==> doc.Table?
    ensures r.Some? ==> r.value.Table? && r.value.entries.Keys == doc.entries.Keys + {key}
    ensures r.Some? ==> r.value.entries[key] == Text(version)
    ensures r.Some? ==> forall k :: k in doc.entries && k != key ==> r.value.entries[k] == doc.entries[k]
  {
    if doc.Table? then Some(Table(doc.entries[key := Text(version)])) else None
  }

  /** The value reached from `doc` by following the table keys of `path`. */
  function Lookup(doc: Doc, path: seq<string>): Option<Doc>
    decreases |path|
  {
    if path == [] then Some(doc)
    else if doc.Table? && path[0] in doc.entries then Lookup(doc.entries[path[0]], path[1..])
    else None
  }

  /** The key a change under `path` is made beneath, at the top level. */
  function TopKey(path: seq<string>, key: string): string
  {
    if path == [] then key else path[0]
  }

  /** Walks down the tables named by `path` (each step a `get_mut` followed by
      `as_table_mut().unwrap()`) and sets `key` in the innermost one. A table
      missing on the way leaves the document as it is; a value on the way
      that is not a table aborts. */
  function SetUnder(doc: Doc, path: seq<string>, key: string, version: string): (r: Option<Doc>)
    ensures r.Some? ==> doc.Table? == r.value.Table?
    ensures r.Some? && doc.Table? ==> r.value.entries.Keys == doc.entries.Keys + (if path == [] then {key} else {})
    ensures r.Some? && doc.Table? ==>
      forall k :: k in doc.entries && k != TopKey(path, key) ==> r.value.entries[k] == doc.entries[k]
    decreases |path|
  {
    if path == [] then SetKey(doc, key, version)
    else if !doc.Table? then None
    else if path[0] !in doc.entries then Some(doc)
    else match SetUnder(doc.entries[path[0]], path[1..], key, version)
      case None => None
      case Some(child) => Some(Table(doc.entries[path[0] := child]))
  }

  /** Every value met when walking `path` down from `doc`, for as long as
      the keys are present, is a table. */
  predicate TablesAlong(doc: Doc, path: seq<string>)
    decreases |path|
  {
    doc.Table? && (path != [] && path[0] in doc.entries ==> TablesAlong(doc.entries[path[0]], path[1..]))
  }

  /** The update aborts exactly when it meets a value that is not a table. */
  lemma {:induction false} SetUnderSucceeds(doc: Doc, path: seq<string>, key: string, version: string)
    ensures SetUnder(doc, path, key, version).Some? <==> TablesAlong(doc, path)
    decreases |path|
  {
    if path != [] && doc.Table? && path[0] in doc.entries {
      SetUnderSucceeds(doc.entries[path[0]], path[1..], key, version);
    }
  }

  /** When the whole path leads to a table, the update succeeds and that
      table becomes itself with `key` set to the version: every other entry
      of it stays. */
  lemma {:induction false} SetUnderInsertsInTable(doc: Doc, path: seq<string>, key: string, version: string)
    requires Lookup(doc, path).Some? && Lookup(doc, path).value.Table?
    ensures SetUnder(doc, path, key, version).Some?
    ensures Lookup(SetUnder(doc, path, key, version).value, path)
      == Some(Table(Lookup(doc, path).value.entries[key := Text(version)]))
    decreases |path|
  {
    if path != [] {
      SetUnderInsertsInTable(doc.entries[path[0]], path[1..], key, version);
      var child := SetUnder(doc.entries[path[0]], path[1..], key, version).value;
      var r := SetUnder(doc, path, key, version).value;
      assert r == Table(doc.entries[path[0] := child]);
      assert Lookup(r, path) == Lookup(child, path[1..]);
    }
  }

  /** `after` is a table with the keys of the table `before`, apart from
      perhaps `changed`, and every entry of `before` except perhaps the one
      under `changed` keeps its value. */
  predicate KeepsEntriesBut(before: Doc, after: Doc, changed: string)
  {
    && before.Table? && after.Table?
    && after.entries.Keys - {changed} == before.entries.Keys - {changed}
    && forall k :: k in before.entries && k != changed ==> k in after.entries && after.entries[k] == before.entries[k]
  }

  /** At every table met on the way down, the update leaves alone every entry
      other than the one it descends into (or, at the end, `key`): sibling
      tables such as `tool.black` next to `tool.poetry` are untouched. */
  lemma {:induction false} SetUnderKeepsSiblings(doc: Doc, path: seq<string>, key: string, version: string, i: nat)
    requires SetUnder(doc, path, key, version).Some?
    requires i <= |path| && Lookup(doc, path[..i]).Some? && Lookup(doc, path[..i]).value.Table?
    ensures var r := SetUnder(doc, path, key, version).value;
      && Lookup(r, path[..i]).Some?
      && KeepsEntriesBut(Lookup(doc, path[..i]).value, Lookup(r, path[..i]).value, TopKey(path[i..], key))
    decreases i
  {
    var r := SetUnder(doc, path, key, version).value;
    if i == 0 {
      assert path[..0] == [] && path[0..] == path;
    } else {
      var child := SetUnder(doc.entries[path[0]], path[1..], key, version).value;
      assert path[..i][1..] == path[1..][..i - 1];
      assert path[1..][i - 1..] == path[i..];
      assert Lookup(doc, path[..i]) == Lookup(doc.entries[path[0]], path[1..][..i - 1]);
      SetUnderKeepsSiblings(doc.entries[path[0]], path[1..], key, version, i - 1);
      assert r == Table(doc.entries[path[0] := child]);
      assert Lookup(r, path[..i]) == Lookup(child, path[1..][..i - 1]);
    }
  }

  /** When the update succeeds, either every table on `path` exists and `key`
      now holds the version beneath it, or one of them is missing and nothing
      changed. */
  lemma {:induction false} SetUnderReachesKey(doc: Doc, path: seq<string>, key: string, version: string)
    requires SetUnder(doc, path, key, version).Some?
    ensures var r := SetUnder(doc, path, key, version).value;
      if Lookup(doc, path).Some?
      then Lookup(r, path + [key]) == Some(Text(version))
      else r == doc
    decreases |path|
  {
    var r := SetUnder(doc, path, key, version).value;
    if path == [] {
      assert Lookup(r, [key]) == Lookup(r.entries[key], []);
    } else if path[0] in doc.entries {
      var child := SetUnder(doc.entries[path[0]], path[1..], key, version).value;
      SetUnderReachesKey(doc.entries[path[0]], path[1..], key, version);
      assert (path + [key])[1..] == path[1..] + [key];
      if Lookup(doc, path).Some? {
        assert Lookup(r, path + [key]) == Lookup(child, path[1..] + [key]);
      } else {
        assert child == doc.entries[path[0]];
        assert r.entries == doc.entries;
      }
    }
  }

  /** The per-format update rule of `sync_version_to_file`: a top-level key for
      JSON and YAML, a key of the `package` table for Cargo, a key of the
      `tool.poetry` table for Poetry. */
  function UpdateDoc(format: SyncFileFormat, doc: Doc, key: string, version: string): (r: Option<Doc>)
    ensures r == SetUnder(doc, TablePath(format), key, version)
  {
    match format
    case Json => SetKey(doc, key, version)
    case CargoToml => SetUnder(doc, ["package"], key, version)
    case PoetryToml => SetUnder(doc, ["tool", "poetry"], key, version)
    case Yaml => SetKey(doc, key, version)
  }

  /** The path below which each format sets its key. */
  function TablePath(format: SyncFileFormat): seq<string>
  {
    match format
    case Json => []
    case CargoToml => ["package"]
    case PoetryToml => ["tool", "poetry"]
    case Yaml => []
  }

  /** Every format's rule is "set the key below its table path", aborting on a
      non-table root; for Cargo and Poetry a missing table leaves the
      document unchanged. */
  lemma UpdateDocSetsKey(format: SyncFileFormat, doc: Doc, key: string, version: string)
    ensures UpdateDoc(format, doc, key, version).Some? ==> doc.Table?
    ensures doc.Table? && Lookup(doc, TablePath(format)).Some? && Lookup(doc, TablePath(format)).value.Table? ==>
      && UpdateDoc(format, doc, key, version).Some?
      && Lookup(UpdateDoc(format, doc, key, version).value, TablePath(format) + [key]) == Some(Text(version))
    ensures UpdateDoc(format, doc, key, version).Some? && Lookup(doc, TablePath(format)).None? ==>
      UpdateDoc(format, doc, key, version) == Some(doc)
    ensures UpdateDoc(format, doc, key, version).Some? <==> TablesAlong(doc, TablePath(format))
    ensures Lookup(doc, TablePath(format)).Some? && Lookup(doc, TablePath(format)).value.Table? ==>
      Lookup(UpdateDoc(format, doc, key, version).value, TablePath(format))
        == Some(Table(Lookup(doc, TablePath(format)).value.entries[key := Text(version)]))
    ensures UpdateDoc(format, doc, key, version).Some? ==>
      forall i :: 0 <= i <= |TablePath(format)| && Lookup(doc, TablePath(format)[..i]).Some?
                  && Lookup(doc, TablePath(format)[..i]).value.Table? ==>
        && Lookup(UpdateDoc(format, doc, key, version).value, TablePath(format)[..i]).Some?
        && KeepsEntriesBut(Lookup(doc, TablePath(format)[..i]).value,
                           Lookup(UpdateDoc(format, doc, key, version).value, TablePath(format)[..i]).value,
                           TopKey(TablePath(format)[i..], key))
  {
    var path := TablePath(format);
    if UpdateDoc(format, doc, key, version).Some? {
      forall i | 0 <= i <= |path| && Lookup(doc, path[..i]).Some? && Lookup(doc, path[..i]).value.Table?
        ensures var r := UpdateDoc(format, doc, key, version).value;
          Lookup(r, path[..i]).Some? && KeepsEntriesBut(Lookup(doc, path[..i]).value, Lookup(r, path[..i]).value, TopKey(path[i..], key))
      {
        SetUnderKeepsSiblings(doc, path, key, version, i);
      }
    }
    SetUnderSucceeds(doc, path, key, version);
    if Lookup(doc, path).Some? && Lookup(doc, path).value.Table? {
      SetUnderInsertsInTable(doc, path, key, version);
    }
    if doc.Table? && Lookup(doc, path).Some? && Lookup(doc, path).value.Table? {
      if format == PoetryToml {
        assert Lookup(doc, path) == Lookup(doc.entries["tool"], ["poetry"]);
      }
      SetUnderReachesKey(doc, path, key, version);
    } else if UpdateDoc(format, doc, key, version).Some? {
      SetUnderReachesKey(doc, path, key, version);
    }
  }

  /** A Poetry update keeps every other `tool` table (`tool.black`, say) and
      every other top-level table as they were. */
  lemma PoetryKeepsOtherTools(doc: Doc, key: string, version: string, k: string)
    requires UpdateDoc(PoetryToml, doc, key, version).Some?
    requires doc.Table? && "tool" in doc.entries && doc.entries["tool"].Table?
    requires k in doc.entries["tool"].entries && k != "poetry"
    ensures var r := UpdateDoc(PoetryToml, doc, key, version).value;
      && r.Table? && "tool" in r.entries && r.entries["tool"].Table?
      && k in r.entries["tool"].entries && r.entries["tool"].entries[k] == doc.entries["tool"].entries[k]
  {
    var path := TablePath(PoetryToml);
    assert path[..1] == ["tool"] && path[1..] == ["poetry"];
    assert Lookup(doc, ["tool"]) == Lookup(doc.entries["tool"], []);
    SetUnderKeepsSiblings(doc, path, key, version, 1);
    var r := UpdateDoc(PoetryToml, doc, key, version).value;
    assert Lookup(r, ["tool"]) == Lookup(r.entries["tool"], []);
  }

  /** Running an update a second time changes nothing more. */
  lemma {:induction false} SetUnderIdempotent(doc: Doc, path: seq<string>, key: string, version: string)
    requires SetUnder(doc, path, key, version).Some?
    ensures SetUnder(SetUnder(doc, path, key, version).value, path, key, version) == SetUnder(doc, path, key, version)
    decreases |path|
  {
    var r := SetUnder(doc, path, key, version).value;
    if path == [] {
      assert r.entries[key := Text(version)] == r.entries;
    } else if path[0] in doc.entries {
      SetUnderIdempotent(doc.entries[path[0]], path[1..], key, version);
      var child := SetUnder(doc.entries[path[0]], path[1..], key, version).value;
      assert r.entries[path[0]] == child;
      assert r.entries[path[0] := child] == r.entries;
    }
  }

  /** How one file's update ended: `sync_version_to_file` returns `Ok(())`
      whenever it returns at all, so the only other end is a panic on some
      file. */
  datatype SyncOutcome = Synced | Aborted(path: string)

  /** One iteration of the loop: read the file (a missing file panics), apply
      the format's rule, write the result back. */
  function SyncOne(store: map<string, Doc>, file: VersionSyncFile, version: string): Option<map<string, Doc>>
  {
    if file.filePath !in store then None
    else match UpdateDoc(file.fileFormat, store[file.filePath], file.versionKey, version)
      case None => None
      case Some(d) => Some(store[file.filePath := d])
  }

  /** The files in list order, each once; the first failure stops the run,
      with the files before it already written. */
  function SyncAll(store: map<string, Doc>, files: seq<VersionSyncFile>, version: string): (r: (map<string, Doc>, SyncOutcome))
    ensures r.1.Aborted? ==> Listed(files, r.1.path)
    ensures r.0.Keys == store.Keys
    decreases |files|
  {
    if files == [] then (store, Synced)
    else match SyncOne(store, files[0], version)
      case None => (store, Aborted(files[0].filePath))
      case Some(next) =>
        var r := SyncAll(next, files[1..], version);
        assert forall i :: 0 <= i < |files[1..]| ==> files[1..][i] == files[i + 1];
        r
  }

  predicate Listed(files: seq<VersionSyncFile>, path: string) {
    exists i :: 0 <= i < |files| && files[i].filePath == path
  }

  predicate DistinctPaths(files: seq<VersionSyncFile>) {
    forall i, j :: 0 <= i < j < |files| ==> files[i].filePath != files[j].filePath
  }

  /** A file that is not listed is neither created nor changed. */
  lemma {:induction false} SyncAllTouchesOnlyListed(store: map<string, Doc>, files: seq<VersionSyncFile>, version: string)
    ensures SyncAll(store, files, version).0.Keys == store.Keys
    ensures forall p :: p in store && !Listed(files, p) ==> SyncAll(store, files, version).0[p] == store[p]
    decreases |files|
  {
    if files != [] {
      match SyncOne(store, files[0], version)
      case None =>
      case Some(next) =>
        SyncAllTouchesOnlyListed(next, files[1..], version);
        forall p | p in store && !Listed(files, p)
          ensures SyncAll(store, files, version).0[p] == store[p]
        {
          assert files[0].filePath != p;
          forall i | 0 <= i < |files[1..]| ensures files[1..][i].filePath != p {
            assert files[1..][i] == files[i + 1];
          }
        }
    }
  }

  /** The update a file receives when it is synchronised on `store`. */
  predicate Updatable(store: map<string, Doc>, file: VersionSyncFile, version: string) {
    file.filePath in store && UpdateDoc(file.fileFormat, store[file.filePath], file.versionKey, version).Some?
  }

  /** With one entry per path, the run succeeds exactly when every file exists
      and accepts its update, and then each file holds its own update. */
  lemma {:induction false} SyncAllUpdatesEachFile(store: map<string, Doc>, files: seq<VersionSyncFile>, version: string)
    requires DistinctPaths(files)
    ensures SyncAll(store, files, version).1 == Synced <==>
      forall i :: 0 <= i < |files| ==> Updatable(store, files[i], version)
    ensures SyncAll(store, files, version).1 == Synced ==>
      forall i :: 0 <= i < |files| ==>
        && files[i].filePath in SyncAll(store, files, version).0
        && SyncAll(store, files, version).0[files[i].filePath]
          == UpdateDoc(files[i].fileFormat, store[files[i].filePath], files[i].versionKey, version).value
    decreases |files|
  {
    if files != [] {
      var f := files[0];
      var rest := files[1..];
      assert DistinctPaths(rest) by {
        forall i, j | 0 <= i < j < |rest| ensures rest[i].filePath != rest[j].filePath {
          assert rest[i] == files[i + 1] && rest[j] == files[j + 1];
        }
      }
      match SyncOne(store, f, version)
      case None =>
        assert !Updatable(store, files[0], version);
      case Some(next) =>
        SyncAllUpdatesEachFile(next, rest, version);
        SyncAllTouchesOnlyListed(next, rest, version);
        forall i | 0 <= i < |rest| ensures Updatable(next, rest[i], version) == Updatable(store, rest[i], version)
          && (rest[i].filePath in store ==> next[rest[i].filePath] == store[rest[i].filePath])
        {
          assert rest[i] == files[i + 1];
        }
        assert !Listed(rest, f.filePath) by {
          forall i | 0 <= i < |rest| ensures rest[i].filePath != f.filePath {
            assert rest[i] == files[i + 1];
          }
        }
        if SyncAll(store, files, version).1 == Synced {
          forall i | 0 <= i < |files|
            ensures files[i].filePath in SyncAll(store, files, version).0
            ensures SyncAll(store, files, version).0[files[i].filePath]
              == UpdateDoc(files[i].fileFormat, store[files[i].filePath], files[i].versionKey, version).value
          {
            if i > 0 {
              assert files[i] == rest[i - 1];
            }
          }
        }
        forall i | 0 <= i < |files| && i > 0 ensures Updatable(store, files[i], version) == Updatable(next, rest[i - 1], version) {
          assert files[i] == rest[i - 1];
        }
    }
  }

  /** `sync_version_to_file`: the loop over the files. */
  method SyncVersionToFile(store: map<string, Doc>, files: seq<VersionSyncFile>, version: string)
    returns (result: map<string, Doc>, outcome: SyncOutcome)
    ensures (result, outcome) == SyncAll(store, files, version)
  {
    result := store;
    var i := 0;
    while i < |files|
      invariant 0 <= i <= |files|
      invariant SyncAll(store, files, version) == SyncAll(result, files[i..], version)
    {
      var file := files[i];
      assert files[i..][1..] == files[i + 1..];
      if file.filePath !in result {
        return result, Aborted(file.filePath);
      }
      var updated := UpdateDoc(file.fileFormat, result[file.filePath], file.versionKey, version);
      if updated.None? {
        return result, Aborted(file.filePath);
      }
      result := result[file.filePath := updated.value];
      i := i + 1;
    }
    outcome := Synced;
  }
}
