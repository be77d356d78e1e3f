/** Writing bundles (pt-bundle/src/writer.rs). */
module Writer {
  import opened Wrappers
  import opened Strings
  import opened Utf8
  import opened Sorting
  import opened StableSort
  import opened Manifests
  import opened Platform

  datatype FileType = JsonFile | Parquet | Html | Log | Binary

  function MimeType(t: FileType): string {
    match t
    case JsonFile => "application/json"
    case Parquet => "application/vnd.apache.parquet"
    case Html => "text/html"
    case Log => "application/x-ndjson"
    case Binary => "application/octet-stream"
  }

  predicate EndsWith(s: string, suffix: string) {
    |suffix| <= |s| && s[|s| - |suffix|..] == suffix
  }

  function TypeOfPath(path: string): FileType {
    if EndsWith(path, ".json") || EndsWith(path, ".jsonl") then
      if EndsWith(path, ".jsonl") then Log else JsonFile
    else if EndsWith(path, ".parquet") then Parquet
    else if EndsWith(path, ".html") then Html
    else Binary
  }

  /** One call of `add_file`. */
  datatype Added = Added(path: string, data: Bytes, fileType: Option<FileType>)

  function EntryOf(lib: Libraries, a: Added): FileEntry {
    var t := if a.fileType.Some? then a.fileType.value else TypeOfPath(a.path);
    FileEntry(a.path, lib.sha256Hex(a.data), |a.data|, Some(MimeType(t)))
  }

  function AddedPath(a: Added): string { a.path }
  function FilePath(f: (string, Bytes)): string { f.0 }

  /** The manifest entry is about this file: its path, its checksum, its length. */
  predicate Describes(lib: Libraries, e: FileEntry, f: (string, Bytes)) {
    e.path == f.0 && e.sha256 == lib.sha256Hex(f.1) && e.bytes == |f.1|
  }

  /** Entry i of the manifest describes file i, for every i. */
  ghost predicate Described(lib: Libraries, entries: seq<FileEntry>, files: Entries) {
    Aligned(entries, files, (e, f) => Describes(lib, e, f))
  }

  function DataBytes(files: Entries): nat {
    if |files| == 0 then 0 else |files[0].1| + DataBytes(files[1..])
  }

  /** Manifest and writer count the same files and the same bytes. */
  lemma {:induction false} SameTotals(lib: Libraries, entries: seq<FileEntry>, files: Entries)
    requires Described(lib, entries, files)
    ensures |entries| == |files| && TotalBytes(entries) == DataBytes(files)
  {
    if |entries| > 0 { SameTotals(lib, entries[1..], files[1..]); }
  }

  /** Sorting the two collections separately keeps them aligned, even when paths repeat. */
  lemma SortedStayDescribed(lib: Libraries, entries: seq<FileEntry>, files: Entries)
    requires Described(lib, entries, files)
    ensures Described(lib, Sort(entries, EntryPath), Sort(files, FilePath))
  {
    SortAligned(entries, EntryPath, files, FilePath, (e, f) => Describes(lib, e, f));
  }

  // ------------------------------------------------------------ the archive

  /** The archive's content: the manifest first, then the files by path. */
  function Layout(json: Bytes, files: Entries): Entries {
    [(MANIFEST_NAME, json)] + Sort(files, FilePath)
  }

  /** What a writer holding this manifest and these files produces at a given time. */
  function Written(lib: Libraries, m: Manifest, files: Entries, time: nat): Result<(Bytes, Manifest)> {
    if |files| == 0 then Err(EmptyBundle)
    else match lib.toJson(SortedFiles(m))
         case None => Err(Json)
         case Some(json) =>
           match lib.Packed(Layout(json, files), time)
           case Err(e) => Err(e)
           case Ok(bytes) => Ok((bytes, SortedFiles(m)))
  }

  /** The first member is the manifest; the others are the files, sorted by path. */
  lemma LayoutExactly(json: Bytes, files: Entries)
    ensures var es := Layout(json, files);
            && |es| == |files| + 1 && es[0] == ("manifest.json", json)
            && es[1..] == Sort(files, FilePath) && multiset(es[1..]) == multiset(files)
            && var sorted := es[1..]; forall i, j | 0 <= i < j < |sorted| :: LexLe(sorted[i].0, sorted[j].0)
  {
    SortMultiset(files, FilePath);
    SortSorted(files, FilePath);
    var sorted := Sort(files, FilePath);
    assert Layout(json, files)[1..] == sorted;
    forall i, j | 0 <= i < j < |sorted| ensures LexLe(sorted[i].0, sorted[j].0) {
      assert LexLe(FilePath(sorted[i]), FilePath(sorted[j]));
    }
  }

  /** What writing yields, the errors in order. */
  lemma WrittenSpelledOut(lib: Libraries, m: Manifest, files: Entries, time: nat)
    ensures files == [] ==> Written(lib, m, files, time) == Err(EmptyBundle)
    ensures files != [] && lib.toJson(SortedFiles(m)).None? ==> Written(lib, m, files, time) == Err(Json)
    ensures files != [] && lib.toJson(SortedFiles(m)).Some? ==>
              var packed := lib.Packed(Layout(lib.toJson(SortedFiles(m)).value, files), time);
              Written(lib, m, files, time)
              == if packed.Err? then Err(packed.error) else Ok((packed.value, SortedFiles(m)))
  {}

  /** The entry of an added file; its MIME type is that of the given type, or of the path's
      ending: JSON Lines before JSON, then Parquet, HTML, and bytes for the rest. */
  lemma EntryOfExactly(lib: Libraries, a: Added)
    ensures var e := EntryOf(lib, a);
            && e.path == a.path && e.sha256 == lib.sha256Hex(a.data) && e.bytes == |a.data|
            && e.mimeType.Some?
            && (a.fileType == None ==>
                  e.mimeType.value == if EndsWith(a.path, ".jsonl") then "application/x-ndjson"
                                      else if EndsWith(a.path, ".json") then "application/json"
                                      else if EndsWith(a.path, ".parquet") then "application/vnd.apache.parquet"
                                      else if EndsWith(a.path, ".html") then "text/html"
                                      else "application/octet-stream")
            && (a.fileType == Some(JsonFile) ==> e.mimeType.value == "application/json")
            && (a.fileType == Some(Parquet) ==> e.mimeType.value == "application/vnd.apache.parquet")
            && (a.fileType == Some(Html) ==> e.mimeType.value == "text/html")
            && (a.fileType == Some(Log) ==> e.mimeType.value == "application/x-ndjson")
            && (a.fileType == Some(Binary) ==> e.mimeType.value == "application/octet-stream")
  {}

  /** A text ends with exactly what it was extended by. */
  lemma EndsWithExactly(s: string, suffix: string)
    ensures EndsWith(s, suffix) <==> exists front: string :: s == front + suffix
  {
    if EndsWith(s, suffix) { assert s == s[..|s| - |suffix|] + suffix; }
  }

  class BundleWriter {
    const lib: Libraries
    const manifest: BundleManifest
    var files: Entries

    /** The invariant of every run: the two collections stay aligned. */
    ghost predicate Valid()
      reads this, manifest
    {
      Described(lib, manifest.data.files, files)
    }

    constructor (lib: Libraries, sessionId: string, hostId: string, exportProfile: ExportProfile, now: string)
      ensures Valid() && fresh(manifest) && this.lib == lib && files == []
      ensures manifest.data == Manifest(SCHEMA_VERSION, SCHEMA_VERSION, now, hostId, sessionId, exportProfile,
                                        "1.0.0", "", [], None, None, None)
    {
      this.lib := lib;
      this.manifest := new BundleManifest(sessionId, hostId, exportProfile, now);
      this.files := [];
    }

    method AddFile(path: string, data: Bytes, fileType: Option<FileType>)
      requires Valid()
      modifies this, manifest
      ensures Valid()
      ensures files == old(files) + [(path, data)]
      ensures manifest.data == old(manifest.data).(
                files := old(manifest.data.files) + [EntryOf(lib, Added(path, data, fileType))])
    {
      var checksum := lib.sha256Hex(data);
      var bytes := |data|;
      var t := if fileType.Some? then fileType.value else TypeOfPath(path);
      var entry := FileEntry(path, checksum, bytes, None);
      entry := entry.(mimeType := Some(MimeType(t)));
      manifest.AddFile(entry);
      files := files + [(path, data)];
    }

    /** Counted on the files, and equal to the manifest's own totals. */
    method Totals() returns (count: nat, bytes: nat)
      requires Valid()
      ensures count == |files| == |manifest.data.files|
      ensures bytes == DataBytes(files) == TotalBytes(manifest.data.files)
    {
      SameTotals(lib, manifest.data.files, files);
      count, bytes := |files|, DataBytes(files);
    }

    method WriteToVec(time: nat) returns (r: Result<(Bytes, Manifest)>)
      requires Valid()
      modifies this, manifest
      ensures Valid()
      ensures r == Written(lib, old(manifest.data), old(files), time)
    {
      if |files| == 0 {
        return Err(EmptyBundle);
      }
      SortedStayDescribed(lib, manifest.data.files, files);
      manifest.SortFiles();
      files := Sort(files, FilePath);
      var json := lib.toJson(manifest.data);
      if json.None? {
        return Err(Json);
      }
      var bytes := WriteArchive(lib, json.value, files, time);
      if bytes.Err? {
        return Err(bytes.error);
      }
      r := Ok((bytes.value, manifest.data));
    }
  }

  /** Writing the archive: the manifest, then each file, stopping at the first failure. */
  method WriteArchive(lib: Libraries, json: Bytes, files: Entries, time: nat) returns (r: Result<Bytes>)
    ensures r == lib.Packed([(MANIFEST_NAME, json)] + files, time)
  {
    ghost var es := [(MANIFEST_NAME, json)] + files;
    var zip, refusal := AppendFile(lib, [], MANIFEST_NAME, json);
    assert es[..0] == [] && es[..1] == zip;
    if refusal.Some? {
      lib.RefusalPersists(es, 1);
      return Err(refusal.value);
    }
    var i := 0;
    while i < |files|
      invariant 0 <= i <= |files|
      invariant zip == es[..i + 1] && lib.Refusal(zip) == None
    {
      assert es[i + 1] == files[i] && es[..i + 2] == es[..i + 1] + [files[i]];
      zip, refusal := AppendFile(lib, zip, files[i].0, files[i].1);
      if refusal.Some? {
        lib.RefusalPersists(es, i + 2);
        return Err(refusal.value);
      }
      i := i + 1;
    }
    assert zip == es;
    var bytes := lib.pack(zip, time);
    r := if bytes.None? then Err(Zip) else Ok(bytes.value);
  }

  /** `start_file`, then `write_all`. */
  method AppendFile(lib: Libraries, zip: Entries, name: string, data: Bytes)
    returns (zip': Entries, refusal: Option<BundleError>)
    requires lib.Refusal(zip) == None
    ensures zip' == zip + [(name, data)] && refusal == lib.Refusal(zip')
  {
    zip' := zip + [(name, data)];
    assert zip'[..|zip'| - 1] == zip;
    if !lib.startFile(zip, name) {
      return zip', Some(Zip);
    }
    if !lib.writeAll(zip, name, data) {
      return zip', Some(Io);
    }
    refusal := None;
  }

  // ----------------------------------------------- insertion order is irrelevant

  /** The two collections after a sequence of additions to an empty writer. */
  function EntriesOf(lib: Libraries, adds: seq<Added>): seq<FileEntry> {
    if |adds| == 0 then [] else EntriesOf(lib, adds[..|adds| - 1]) + [EntryOf(lib, adds[|adds| - 1])]
  }

  function FilesOf(adds: seq<Added>): Entries {
    if |adds| == 0 then [] else FilesOf(adds[..|adds| - 1]) + [(adds[|adds| - 1].path, adds[|adds| - 1].data)]
  }

  predicate IsEntryOf(lib: Libraries, a: Added, e: FileEntry) { e == EntryOf(lib, a) }
  predicate IsFileOf(a: Added, f: (string, Bytes)) { f == (a.path, a.data) }

  lemma {:induction false} EntriesCollected(lib: Libraries, adds: seq<Added>)
    ensures Aligned(adds, EntriesOf(lib, adds), (a, e) => IsEntryOf(lib, a, e))
  {
    if |adds| > 0 { EntriesCollected(lib, adds[..|adds| - 1]); }
  }

  lemma {:induction false} FilesCollected(adds: seq<Added>)
    ensures Aligned(adds, FilesOf(adds), IsFileOf)
  {
    if |adds| > 0 { FilesCollected(adds[..|adds| - 1]); }
  }

  /** After any sequence of additions the two collections are aligned. */
  lemma AddedAreDescribed(lib: Libraries, adds: seq<Added>)
    ensures Described(lib, EntriesOf(lib, adds), FilesOf(adds))
  {
    EntriesCollected(lib, adds);
    FilesCollected(adds);
    var entries, files := EntriesOf(lib, adds), FilesOf(adds);
    forall i | 0 <= i < |entries| ensures Describes(lib, entries[i], files[i]) {
      assert IsEntryOf(lib, adds[i], entries[i]) && IsFileOf(adds[i], files[i]);
    }
  }

  lemma SameSortedEntries(lib: Libraries, adds: seq<Added>, adds': seq<Added>)
    requires Sort(adds, AddedPath) == Sort(adds', AddedPath)
    ensures Sort(EntriesOf(lib, adds), EntryPath) == Sort(EntriesOf(lib, adds'), EntryPath)
  {
    EntriesCollected(lib, adds);
    EntriesCollected(lib, adds');
    SortAligned(adds, AddedPath, EntriesOf(lib, adds), EntryPath, (a, e) => IsEntryOf(lib, a, e));
    SortAligned(adds', AddedPath, EntriesOf(lib, adds'), EntryPath, (a, e) => IsEntryOf(lib, a, e));
  }

  lemma SameSortedFiles(adds: seq<Added>, adds': seq<Added>)
    requires Sort(adds, AddedPath) == Sort(adds', AddedPath)
    ensures Sort(FilesOf(adds), FilePath) == Sort(FilesOf(adds'), FilePath)
    ensures |FilesOf(adds)| == |adds| && |FilesOf(adds')| == |adds'|
  {
    FilesCollected(adds);
    FilesCollected(adds');
    SortAligned(adds, AddedPath, FilesOf(adds), FilePath, IsFileOf);
    SortAligned(adds', AddedPath, FilesOf(adds'), FilePath, IsFileOf);
  }

  /** Two writers given the same files in different orders agree on the manifest and on the
      archive's content, whether or not writing it succeeds; and at the same time on
      everything, the bytes included. */
  lemma InsertionOrderIrrelevant(lib: Libraries, m: Manifest, adds: seq<Added>, adds': seq<Added>)
    requires multiset(adds) == multiset(adds')
    requires DistinctKeys(adds, AddedPath) && DistinctKeys(adds', AddedPath)
    ensures SortedFiles(m.(files := EntriesOf(lib, adds))) == SortedFiles(m.(files := EntriesOf(lib, adds')))
    ensures forall json :: Layout(json, FilesOf(adds)) == Layout(json, FilesOf(adds'))
    ensures forall time :: Written(lib, m.(files := EntriesOf(lib, adds)), FilesOf(adds), time)
                        == Written(lib, m.(files := EntriesOf(lib, adds')), FilesOf(adds'), time)
  {
    SortIgnoresOrder(adds, adds', AddedPath);
    SameSortedEntries(lib, adds, adds');
    SameSortedFiles(adds, adds');
    assert |adds| == |multiset(adds)| == |adds'|;
  }
}
