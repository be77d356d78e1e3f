/** Opening bundles and verifying their files (pt-bundle/src/reader.rs). */
module Reader {
  import opened Wrappers
  import opened Utf8
  import opened Manifests
  import opened Platform
  import opened Encryption

  const MAX_FILE_SIZE := 100 * 1024 * 1024

  /** Reading one member: the declared size is checked first, then at most one byte
      more than the limit is read, so a header that lies about the size is caught too. */
  function Fetch(m: Member): Result<Bytes> {
    if m.size > MAX_FILE_SIZE then Err(Io)
    else match m.content
         case None => Err(Io)
         case Some(d) =>
           var data := if |d| <= MAX_FILE_SIZE + 1 then d else d[..MAX_FILE_SIZE + 1];
           if |data| > MAX_FILE_SIZE then Err(Io) else Ok(data)
  }

  /** What is fetched is the whole content, and it is within the limit. */
  lemma FetchExact(m: Member, d: Bytes)
    ensures Fetch(m) == Ok(d) <==> m.size <= MAX_FILE_SIZE && m.content == Some(d) && |d| <= MAX_FILE_SIZE
  {}

  function RawRead(a: Archive, path: string): Result<Bytes> {
    if path !in a then Err(FileNotFound(path)) else Fetch(a[path])
  }

  function VerifiedRead(lib: Libraries, m: Manifest, a: Archive, path: string): Result<Bytes> {
    match FindFile(m.files, path)
    case None => Err(FileNotFound(path))
    case Some(entry) =>
      match RawRead(a, path)
      case Err(e) => Err(e)
      case Ok(data) =>
        if lib.sha256Hex(data) != entry.sha256
        then Err(ChecksumMismatch(path, entry.sha256, lib.sha256Hex(data)))
        else Ok(data)
  }

  /** The archived content of path hashes to the checksum of its first manifest entry. */
  ghost predicate Intact(lib: Libraries, m: Manifest, a: Archive, path: string) {
    && FindFile(m.files, path).Some? && path in a
    && a[path].size <= MAX_FILE_SIZE && a[path].content.Some? && |a[path].content.value| <= MAX_FILE_SIZE
    && lib.sha256Hex(a[path].content.value) == FindFile(m.files, path).value.sha256
  }

  lemma VerifiedReadExact(lib: Libraries, m: Manifest, a: Archive, path: string)
    ensures VerifiedRead(lib, m, a, path).Ok? <==> Intact(lib, m, a, path)
    ensures Intact(lib, m, a, path) ==> VerifiedRead(lib, m, a, path) == Ok(a[path].content.value)
  {}

  function ManifestOf(lib: Libraries, a: Archive): Result<Manifest> {
    if MANIFEST_NAME !in a then Err(MissingFile(MANIFEST_NAME))
    else match Fetch(a[MANIFEST_NAME])
         case Err(e) => Err(e)
         case Ok(json) =>
           if !lib.isUtf8(json) then Err(Io)
           else match lib.fromJson(json)
                case None => Err(Json)
                case Some(m) => Ok(m)
  }

  /** `from_bytes`: the manifest and archive an opened reader holds. */
  function Opened(lib: Libraries, bytes: Bytes): Result<(Manifest, Archive)> {
    match lib.unpack(bytes)
    case None => Err(Zip)
    case Some(a) =>
      match ManifestOf(lib, a)
      case Err(e) => Err(e)
      case Ok(m) => if Validation(m).Some? then Err(Validation(m).value) else Ok((m, a))
  }

  /** `open_with_passphrase`, on the file's bytes. */
  ghost function OpenedWith(lib: Libraries, bytes: Bytes, passphrase: Option<string>): Result<(Manifest, Archive)> {
    if IsEncrypted(bytes) then
      if passphrase.None? then Err(EncryptedBundleRequiresPassphrase)
      else match Decrypted(lib, bytes, passphrase.value)
           case Err(e) => Err(e)
           case Ok(inner) => Opened(lib, inner)
    else Opened(lib, bytes)
  }

  /** Reading a member, with its errors. */
  lemma RawReadExact(a: Archive, path: string)
    ensures path !in a ==> RawRead(a, path) == Err(FileNotFound(path))
    ensures path in a ==>
              var m := a[path];
              RawRead(a, path)
              == if m.size <= 104_857_600 && m.content.Some? && |m.content.value| <= 104_857_600
                 then Ok(m.content.value) else Err(Io)
  {}

  /** A verified read, with its errors in order. */
  lemma VerifiedReadSpelledOut(lib: Libraries, m: Manifest, a: Archive, path: string)
    ensures !(exists e | e in m.files :: e.path == path) ==> VerifiedRead(lib, m, a, path) == Err(FileNotFound(path))
    ensures (exists e | e in m.files :: e.path == path) ==>
              var entry, r := FindFile(m.files, path).value, RawRead(a, path);
              VerifiedRead(lib, m, a, path)
              == if r.Err? then r
                 else if lib.sha256Hex(r.value) == entry.sha256 then r
                 else Err(ChecksumMismatch(path, entry.sha256, lib.sha256Hex(r.value)))
  {}

  /** Opening, with its errors in order. */
  lemma OpenedSpelledOut(lib: Libraries, bytes: Bytes)
    ensures lib.unpack(bytes).None? ==> Opened(lib, bytes) == Err(Zip)
    ensures lib.unpack(bytes).Some? ==>
              var a := lib.unpack(bytes).value;
              if "manifest.json" !in a then Opened(lib, bytes) == Err(MissingFile("manifest.json"))
              else
                var json := RawRead(a, "manifest.json");
                if json.Err? then Opened(lib, bytes) == Err(Io)
                else if !lib.isUtf8(json.value) then Opened(lib, bytes) == Err(Io)
                else if lib.fromJson(json.value).None? then Opened(lib, bytes) == Err(Json)
                else
                  var m := lib.fromJson(json.value).value;
                  Opened(lib, bytes) == if Validation(m).Some? then Err(Validation(m).value) else Ok((m, a))
  {}

  lemma OpenedWithSpelledOut(lib: Libraries, bytes: Bytes, passphrase: Option<string>)
    ensures var magic := [0x50, 0x54, 0x42, 0x45, 0x4E, 0x43, 0x30, 0x31];
            OpenedWith(lib, bytes, passphrase)
            == if !(magic <= bytes) then Opened(lib, bytes)
               else if passphrase.None? then Err(EncryptedBundleRequiresPassphrase)
               else if Decrypted(lib, bytes, passphrase.value).Err? then
                 Err(Decrypted(lib, bytes, passphrase.value).error)
               else Opened(lib, Decrypted(lib, bytes, passphrase.value).value)
  {}

  // ---------------------------------------------------------------- the reader

  function ListedPaths(m: Manifest): seq<string> {
    seq(|m.files|, i requires 0 <= i < |m.files| => m.files[i].path)
  }

  /** The verified marks after reading the given paths in order. */
  function Marked(lib: Libraries, m: Manifest, a: Archive, verified: map<string, bool>, paths: seq<string>)
    : map<string, bool>
  {
    if |paths| == 0 then verified
    else
      var before := Marked(lib, m, a, verified, paths[..|paths| - 1]);
      var path := paths[|paths| - 1];
      if VerifiedRead(lib, m, a, path).Ok? then before[path := true] else before
  }

  /** The given paths that fail verification, in order and with their repetitions. */
  function Failing(lib: Libraries, m: Manifest, a: Archive, paths: seq<string>): seq<string> {
    if |paths| == 0 then []
    else
      var before := Failing(lib, m, a, paths[..|paths| - 1]);
      var path := paths[|paths| - 1];
      if VerifiedRead(lib, m, a, path).Ok? then before else before + [path]
  }

  predicate MarkedIn(verified: map<string, bool>, path: string) {
    path in verified && verified[path]
  }

  class BundleReader {
    const lib: Libraries
    const manifest: Manifest
    const archive: Archive
    var verified: map<string, bool>

    /** Every mark is deserved. */
    ghost predicate Valid()
      reads this
    {
      forall path | MarkedIn(verified, path) :: Intact(lib, manifest, archive, path)
    }

    constructor (lib: Libraries, manifest: Manifest, archive: Archive)
      ensures Valid() && verified == map[]
      ensures this.lib == lib && this.manifest == manifest && this.archive == archive
    {
      this.lib, this.manifest, this.archive := lib, manifest, archive;
      verified := map[];
    }

    predicate IsVerified(path: string)
      reads this
    {
      MarkedIn(verified, path)
    }

    method ReadRaw(path: string) returns (r: Result<Bytes>)
      ensures r == RawRead(archive, path)
    {
      if path !in archive {
        return Err(FileNotFound(path));
      }
      r := Fetch(archive[path]);
    }

    method ReadVerified(path: string) returns (r: Result<Bytes>)
      requires Valid()
      modifies this
      ensures Valid()
      ensures r == VerifiedRead(lib, manifest, archive, path)
      ensures verified == if r.Ok? then old(verified)[path := true] else old(verified)
      ensures verified == AfterCall(lib, manifest, archive, old(verified), ReadVerifiedCall(path))
    {
      assert Marked(lib, manifest, archive, verified, [path][..0]) == verified;
      var entry := FindFile(manifest.files, path);
      if entry.None? {
        return Err(FileNotFound(path));
      }
      r := ReadRaw(path);
      if r.Err? {
        return;
      }
      var actual := lib.sha256Hex(r.value);
      if actual != entry.value.sha256 {
        return Err(ChecksumMismatch(path, entry.value.sha256, actual));
      }
      verified := verified[path := true];
    }

    /** Afterwards a manifest path is verified exactly when it is not reported. */
    method VerifyAll() returns (failures: seq<string>)
      requires Valid()
      modifies this
      ensures Valid()
      ensures failures == Failing(lib, manifest, archive, ListedPaths(manifest))
      ensures verified == AfterCall(lib, manifest, archive, old(verified), VerifyAllCall)
      ensures forall path | path in ListedPaths(manifest) :: IsVerified(path) <==> path !in failures
    {
      failures := [];
      var paths := ListedPaths(manifest);
      var i := 0;
      while i < |paths|
        invariant 0 <= i <= |paths|
        invariant Valid()
        invariant failures == Failing(lib, manifest, archive, paths[..i])
        invariant verified == Marked(lib, manifest, archive, old(verified), paths[..i])
      {
        assert paths[..i + 1][..i] == paths[..i];
        var r := ReadVerified(paths[i]);
        if r.Err? {
          failures := failures + [paths[i]];
        }
        i := i + 1;
      }
      assert paths[..i] == paths;
      forall path | path in paths ensures IsVerified(path) <==> path !in failures {
        MarkedExact(lib, manifest, archive, old(verified), paths, path);
        FailingExact(lib, manifest, archive, paths, path);
        VerifiedReadExact(lib, manifest, archive, path);
      }
    }
  }

  lemma {:induction false} MarkedExact(lib: Libraries, m: Manifest, a: Archive,
                                       verified: map<string, bool>, paths: seq<string>, path: string)
    ensures MarkedIn(Marked(lib, m, a, verified, paths), path)
       <==> MarkedIn(verified, path) || (path in paths && Intact(lib, m, a, path))
  {
    if |paths| > 0 {
      var last := paths[|paths| - 1];
      MarkedExact(lib, m, a, verified, paths[..|paths| - 1], path);
      VerifiedReadExact(lib, m, a, last);
      assert paths == paths[..|paths| - 1] + [last];
    }
  }

  lemma {:induction false} FailingExact(lib: Libraries, m: Manifest, a: Archive, paths: seq<string>, path: string)
    ensures path in Failing(lib, m, a, paths) <==> path in paths && !Intact(lib, m, a, path)
  {
    if |paths| > 0 {
      var last := paths[|paths| - 1];
      FailingExact(lib, m, a, paths[..|paths| - 1], path);
      VerifiedReadExact(lib, m, a, last);
      assert paths == paths[..|paths| - 1] + [last];
    }
  }

  /** Failures come in the order of the paths. */
  lemma FailingInOrder(lib: Libraries, m: Manifest, a: Archive, paths: seq<string>, path: string)
    ensures Failing(lib, m, a, []) == []
    ensures Failing(lib, m, a, paths + [path])
         == Failing(lib, m, a, paths) + if Intact(lib, m, a, path) then [] else [path]
  {
    assert (paths + [path])[..|paths|] == paths;
    VerifiedReadExact(lib, m, a, path);
  }

  method FromBytes(lib: Libraries, bytes: Bytes) returns (r: Result<BundleReader>)
    ensures r.Err? ==> Opened(lib, bytes) == Err(r.error)
    ensures r.Ok? ==> fresh(r.value) && r.value.Valid() && r.value.verified == map[] && r.value.lib == lib
                      && Opened(lib, bytes) == Ok((r.value.manifest, r.value.archive))
  {
    var archive := lib.unpack(bytes);
    if archive.None? {
      return Err(Zip);
    }
    var manifest := ManifestOf(lib, archive.value);
    if manifest.Err? {
      return Err(manifest.error);
    }
    var problem := Validate(manifest.value);
    if problem.Some? {
      return Err(problem.value);
    }
    var reader := new BundleReader(lib, manifest.value, archive.value);
    r := Ok(reader);
  }

  method OpenWithPassphrase(lib: Libraries, bytes: Bytes, passphrase: Option<string>) returns (r: Result<BundleReader>)
    ensures r.Err? ==> OpenedWith(lib, bytes, passphrase) == Err(r.error)
    ensures r.Ok? ==> fresh(r.value) && r.value.Valid() && r.value.verified == map[] && r.value.lib == lib
                      && OpenedWith(lib, bytes, passphrase) == Ok((r.value.manifest, r.value.archive))
  {
    if IsEncrypted(bytes) {
      if passphrase.None? {
        return Err(EncryptedBundleRequiresPassphrase);
      }
      var decrypted := DecryptBytes(lib, bytes, passphrase.value);
      if decrypted.Err? {
        return Err(decrypted.error);
      }
      r := FromBytes(lib, decrypted.value);
      return;
    }
    r := FromBytes(lib, bytes);
  }

  // ----------------------------------------------------------- every run of calls

  datatype Call = ReadRawCall(path: string) | ReadVerifiedCall(path: string) | VerifyAllCall

  /** The marks after one call, as the methods above leave them. */
  function AfterCall(lib: Libraries, m: Manifest, a: Archive, verified: map<string, bool>, call: Call)
    : map<string, bool>
  {
    match call
    case ReadRawCall(_) => verified
    case ReadVerifiedCall(path) => Marked(lib, m, a, verified, [path])
    case VerifyAllCall => Marked(lib, m, a, verified, ListedPaths(m))
  }

  /** The marks after a run, starting from a freshly opened reader. */
  function AfterRun(lib: Libraries, m: Manifest, a: Archive, calls: seq<Call>): map<string, bool> {
    if |calls| == 0 then map[]
    else AfterCall(lib, m, a, AfterRun(lib, m, a, calls[..|calls| - 1]), calls[|calls| - 1])
  }

  predicate Checks(m: Manifest, call: Call, path: string) {
    match call
    case ReadRawCall(_) => false
    case ReadVerifiedCall(p) => p == path
    case VerifyAllCall => path in ListedPaths(m)
  }

  ghost predicate EverChecked(m: Manifest, calls: seq<Call>, path: string) {
    exists i | 0 <= i < |calls| :: Checks(m, calls[i], path)
  }

  /** In every run, a path is marked exactly when some call checked it and its archived
      content is intact: no mark is undeserved, none is lost, and the order of the calls
      does not matter. */
  lemma {:induction false} VerifiedInEveryRun(lib: Libraries, m: Manifest, a: Archive, calls: seq<Call>, path: string)
    ensures MarkedIn(AfterRun(lib, m, a, calls), path)
       <==> EverChecked(m, calls, path) && Intact(lib, m, a, path)
  {
    if |calls| > 0 {
      var before, last := calls[..|calls| - 1], calls[|calls| - 1];
      VerifiedInEveryRun(lib, m, a, before, path);
      var marks := AfterRun(lib, m, a, before);
      MarkedExact(lib, m, a, marks, match last
                                    case ReadRawCall(_) => []
                                    case ReadVerifiedCall(p) => [p]
                                    case VerifyAllCall => ListedPaths(m), path);
      assert EverChecked(m, calls, path) <==> EverChecked(m, before, path) || Checks(m, last, path) by {
        assert calls == before + [last];
        if i :| 0 <= i < |before| && Checks(m, before[i], path) { assert calls[i] == before[i]; }
        if Checks(m, last, path) { assert Checks(m, calls[|calls| - 1], path); }
      }
    }
  }

  /** The marks only grow along a run. */
  lemma {:induction false} VerifiedOnlyGrows(
    lib: Libraries, m: Manifest, a: Archive, run: seq<Call>, more: seq<Call>, path: string)
    requires MarkedIn(AfterRun(lib, m, a, run), path)
    ensures MarkedIn(AfterRun(lib, m, a, run + more), path)
  {
    VerifiedInEveryRun(lib, m, a, run, path);
    VerifiedInEveryRun(lib, m, a, run + more, path);
    var i :| 0 <= i < |run| && Checks(m, run[i], path);
    assert (run + more)[i] == run[i];
  }
}
