/** Bundle manifests (pt-bundle/src/manifest.rs, error.rs). */
module Manifests {
  import opened Wrappers
  import opened Utf8
  import opened Strings
  import opened StableSort

  const SCHEMA_VERSION := "1.0.0"
  const MANIFEST_NAME := "manifest.json"

  /** Why a manifest is refused; the source carries the same facts in its messages. */
  datatype Defect =
    | EmptySessionId | EmptyHostId | EmptySnapshotPath
    | SnapshotMissing(path: string) | AuditMissing(path: string) | BadIntegrityLength
    | EmptyPath | AbsolutePath(path: string) | PathTraversal(path: string) | BadChecksumLength(path: string)

  datatype BundleError =
    | Io | Zip | Json | EmptyBundle
    | ChecksumMismatch(path: string, expected: string, actual: string)
    | MissingFile(path: string) | FileNotFound(path: string)
    | UnsupportedVersion(version: string, supported: string)
    | CorruptedManifest(defect: Defect)
    | EncryptedBundleRequiresPassphrase | MissingPassphrase | InvalidEncryptionHeader
    | NotEncrypted | EncryptionFailed | DecryptionFailed

  datatype Result<+T> = Ok(value: T) | Err(error: BundleError)

  datatype ExportProfile = Minimal | Safe | Forensic

  datatype FileEntry = FileEntry(path: string, sha256: string, bytes: nat, mimeType: Option<string>)

  datatype Provenance = Provenance(
    snapshotPath: string, auditPath: Option<string>, integritySha256: Option<string>)

  /** The serialised content of a manifest. */
  datatype Manifest = Manifest(
    bundleVersion: string, schemaVersion: string, createdAt: string,
    hostId: string, sessionId: string, exportProfile: ExportProfile,
    redactionPolicyVersion: string, redactionPolicyHash: string,
    files: seq<FileEntry>,
    description: Option<string>, ptVersion: Option<string>, provenance: Option<Provenance>)

  function EntryPath(e: FileEntry): string { e.path }

  function SortedFiles(m: Manifest): Manifest {
    m.(files := Sort(m.files, EntryPath))
  }

  function TotalBytes(files: seq<FileEntry>): nat {
    if |files| == 0 then 0 else files[0].bytes + TotalBytes(files[1..])
  }

  lemma {:induction false} TotalBytesAfter(files: seq<FileEntry>, e: FileEntry)
    ensures TotalBytes(files + [e]) == TotalBytes(files) + e.bytes && TotalBytes([]) == 0
  {
    if |files| > 0 {
      assert (files + [e])[1..] == files[1..] + [e];
      TotalBytesAfter(files[1..], e);
    }
  }

  predicate Lists(files: seq<FileEntry>, path: string) {
    exists e | e in files :: e.path == path
  }

  /** The first entry with the given path. */
  function FindFile(files: seq<FileEntry>, path: string): (r: Option<FileEntry>)
    ensures r.Some? <==> Lists(files, path)
    ensures r.Some? ==> r.value in files && r.value.path == path
  {
    if |files| == 0 then None
    else if files[0].path == path then Some(files[0])
    else
      var r := FindFile(files[1..], path);
      assert Lists(files[1..], path) <==> Lists(files, path) by {
        assert files == [files[0]] + files[1..];
      }
      r
  }

  /** `find_file` returns the first match. */
  lemma {:induction false} FindFileIsFirst(files: seq<FileEntry>, i: nat)
    requires i < |files| && forall j | 0 <= j < i :: files[j].path != files[i].path
    ensures FindFile(files, files[i].path) == Some(files[i])
  {
    if i > 0 {
      assert files[0].path != files[i].path;
      forall j | 0 <= j < i - 1 ensures files[1..][j].path != files[i].path {
        assert files[1..][j] == files[j + 1];
      }
      FindFileIsFirst(files[1..], i - 1);
    }
  }

  // ------------------------------------------------------------- validation

  function SnapshotDefect(files: seq<FileEntry>, p: Provenance): Option<Defect> {
    if p.snapshotPath == "" then Some(EmptySnapshotPath)
    else if !Lists(files, p.snapshotPath) then Some(SnapshotMissing(p.snapshotPath))
    else if p.auditPath.Some? && !Lists(files, p.auditPath.value) then Some(AuditMissing(p.auditPath.value))
    else if p.integritySha256.Some? && ByteLen(p.integritySha256.value) != 64 then Some(BadIntegrityLength)
    else None
  }

  /** What the loop of `validate` asks of one entry. */
  function EntryDefect(e: FileEntry): Option<Defect> {
    if e.path == "" then Some(EmptyPath)
    else if e.path[0] == '/' || e.path[0] == '\\' then Some(AbsolutePath(e.path))
    else if Contains(e.path, "..") then Some(PathTraversal(e.path))
    else if ByteLen(e.sha256) != 64 then Some(BadChecksumLength(e.path))
    else None
  }

  function HeaderDefect(m: Manifest): Option<Defect> {
    if m.sessionId == "" then Some(EmptySessionId)
    else if m.hostId == "" then Some(EmptyHostId)
    else if m.provenance.Some? then SnapshotDefect(m.files, m.provenance.value)
    else None
  }

  /** The checks as one conjunction; `SafePaths` proves what those on paths are for. */
  ghost predicate WellFormed(m: Manifest) {
    && m.bundleVersion == SCHEMA_VERSION && m.sessionId != "" && m.hostId != ""
    && (m.provenance.Some? ==>
          && var p := m.provenance.value;
          && p.snapshotPath != "" && Lists(m.files, p.snapshotPath)
          && (p.auditPath.Some? ==> Lists(m.files, p.auditPath.value))
          && (p.integritySha256.Some? ==> ByteLen(p.integritySha256.value) == 64))
    && forall e | e in m.files ::
         && e.path != "" && e.path[0] != '/' && e.path[0] != '\\'
         && !Contains(e.path, "..") && ByteLen(e.sha256) == 64
  }

  /** The defect of the first bad entry. */
  function FirstEntryDefect(files: seq<FileEntry>): (r: Option<Defect>)
    ensures r == None <==> forall e | e in files :: EntryDefect(e) == None
    ensures r.Some? ==> exists i | 0 <= i < |files| ::
                          r == EntryDefect(files[i]) && forall j | 0 <= j < i :: EntryDefect(files[j]) == None
  {
    if |files| == 0 then None
    else
      assert files == [files[0]] + files[1..];
      assert forall j | 0 < j < |files| :: files[j] == files[1..][j - 1];
      var rest := FirstEntryDefect(files[1..]);
      if EntryDefect(files[0]).Some? then EntryDefect(files[0]) else rest
  }

  /** `validate`: the version first, then the header, then the entries in order. */
  function Validation(m: Manifest): Option<BundleError> {
    if m.bundleVersion != SCHEMA_VERSION then Some(UnsupportedVersion(m.bundleVersion, SCHEMA_VERSION))
    else match HeaderDefect(m)
         case Some(defect) => Some(CorruptedManifest(defect))
         case None =>
           match FirstEntryDefect(m.files)
           case Some(defect) => Some(CorruptedManifest(defect))
           case None => None
  }

  /** Validation accepts exactly the well-formed manifests. */
  lemma AcceptedIffWellFormed(m: Manifest)
    ensures Validation(m) == None <==> WellFormed(m)
  {
    if Validation(m) == None {
      forall e | e in m.files
        ensures e.path != "" && e.path[0] != '/' && e.path[0] != '\\'
             && !Contains(e.path, "..") && ByteLen(e.sha256) == 64
      {
        assert EntryDefect(e) == None;
      }
    }
    if WellFormed(m) {
      forall e | e in m.files ensures EntryDefect(e) == None {}
    }
  }

  /** One entry is in order. */
  predicate EntryFine(e: FileEntry) {
    && e.path != "" && e.path[0] != '/' && e.path[0] != '\\'
    && !Contains(e.path, "..") && ByteLen(e.sha256) == 64
  }

  /** The refusals before the entries, in order. */
  lemma HeaderRefusals(m: Manifest)
    ensures m.bundleVersion != "1.0.0" ==> Validation(m) == Some(UnsupportedVersion(m.bundleVersion, "1.0.0"))
    ensures m.bundleVersion == "1.0.0" && m.sessionId == "" ==> Validation(m) == Some(CorruptedManifest(EmptySessionId))
    ensures m.bundleVersion == "1.0.0" && m.sessionId != "" && m.hostId == "" ==>
              Validation(m) == Some(CorruptedManifest(EmptyHostId))
    ensures m.bundleVersion == "1.0.0" && m.sessionId != "" && m.hostId != "" && m.provenance.Some? ==>
              var p := m.provenance.value;
              && (p.snapshotPath == "" ==> Validation(m) == Some(CorruptedManifest(EmptySnapshotPath)))
              && (p.snapshotPath != "" && !(exists e | e in m.files :: e.path == p.snapshotPath) ==>
                    Validation(m) == Some(CorruptedManifest(SnapshotMissing(p.snapshotPath))))
              && (p.snapshotPath != "" && (exists e | e in m.files :: e.path == p.snapshotPath) ==>
                    && (p.auditPath.Some? && !(exists e | e in m.files :: e.path == p.auditPath.value) ==>
                          Validation(m) == Some(CorruptedManifest(AuditMissing(p.auditPath.value))))
                    && ((p.auditPath.None? || exists e | e in m.files :: e.path == p.auditPath.value)
                        && p.integritySha256.Some? && ByteLen(p.integritySha256.value) != 64 ==>
                          Validation(m) == Some(CorruptedManifest(BadIntegrityLength))))
  {}

  /** With all before it in order, entry i is refused for its first fault. */
  lemma EntryRefusals(m: Manifest, i: nat)
    requires m.bundleVersion == "1.0.0" && m.sessionId != "" && m.hostId != "" && m.provenance.None?
    requires i < |m.files| && !EntryFine(m.files[i]) && forall j | 0 <= j < i :: EntryFine(m.files[j])
    ensures var path := m.files[i].path;
            Validation(m) == Some(CorruptedManifest(
              if path == "" then EmptyPath
              else if path[0] == '/' || path[0] == '\\' then AbsolutePath(path)
              else if Contains(path, "..") then PathTraversal(path)
              else BadChecksumLength(path)))
  {
    forall j | 0 <= j < |m.files| ensures EntryDefect(m.files[j]) == None <==> EntryFine(m.files[j]) {}
    assert EntryDefect(m.files[i]) != None && m.files[i] in m.files;
    assert FirstEntryDefect(m.files) != None;
    var k :| 0 <= k < |m.files| && FirstEntryDefect(m.files) == EntryDefect(m.files[k])
             && forall j | 0 <= j < k :: EntryDefect(m.files[j]) == None;
    assert EntryDefect(m.files[k]) != None && k == i;
  }

  /** The struct the writer fills in place. */
  class BundleManifest {
    var data: Manifest

    constructor (sessionId: string, hostId: string, exportProfile: ExportProfile, now: string)
      ensures data == Manifest(SCHEMA_VERSION, SCHEMA_VERSION, now, hostId, sessionId, exportProfile,
                               "1.0.0", "", [], None, None, None)
    {
      data := Manifest(SCHEMA_VERSION, SCHEMA_VERSION, now, hostId, sessionId, exportProfile,
                       "1.0.0", "", [], None, None, None);
    }

    method AddFile(entry: FileEntry)
      modifies this
      ensures data == old(data).(files := old(data.files) + [entry])
    {
      data := data.(files := data.files + [entry]);
    }

    method SortFiles()
      modifies this
      ensures data == SortedFiles(old(data))
    {
      data := data.(files := Sort(data.files, EntryPath));
    }
  }

  /** The loop over the entries. */
  method FindBadEntry(files: seq<FileEntry>) returns (r: Option<Defect>)
    ensures r == FirstEntryDefect(files)
  {
    var i := 0;
    while i < |files|
      invariant 0 <= i <= |files|
      invariant FirstEntryDefect(files) == FirstEntryDefect(files[i..])
    {
      assert files[i..][0] == files[i] && files[i..][1..] == files[i + 1..];
      var defect := EntryDefect(files[i]);
      if defect.Some? {
        return defect;
      }
      i := i + 1;
    }
    r := None;
  }

  method Validate(m: Manifest) returns (r: Option<BundleError>)
    ensures r == Validation(m)
    ensures r == None <==> WellFormed(m)
  {
    AcceptedIffWellFormed(m);
    if m.bundleVersion != SCHEMA_VERSION {
      return Some(UnsupportedVersion(m.bundleVersion, SCHEMA_VERSION));
    }
    var header := HeaderDefect(m);
    if header.Some? {
      return Some(CorruptedManifest(header.value));
    }
    var defect := FindBadEntry(m.files);
    r := if defect.Some? then Some(CorruptedManifest(defect.value)) else None;
  }
}
