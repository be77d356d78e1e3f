/** What a writer writes, a reader reads back: the writer, the container, the
    encryption envelope and the reader together. */
module Bundle {
  import opened Wrappers
  import opened Utf8
  import opened Sorting
  import opened StableSort
  import opened Manifests
  import opened Platform
  import opened Encryption
  import opened Writer
  import opened Reader
  import opened SafePaths

  ghost predicate DistinctPaths(files: Entries) {
    DistinctKeys(files, FilePath) && forall i | 0 <= i < |files| :: files[i].0 != MANIFEST_NAME
  }

  /** The paths whose data is over the reader's limit, in archive order. */
  function Oversized(files: Entries): seq<string> {
    if |files| == 0 then []
    else
      var before := Oversized(files[..|files| - 1]);
      if |files[|files| - 1].1| <= MAX_FILE_SIZE then before else before + [files[|files| - 1].0]
  }

  lemma OversizedInOrder(files: Entries, f: (string, Bytes))
    ensures Oversized([]) == []
    ensures Oversized(files + [f]) == Oversized(files) + if |f.1| <= 104_857_600 then [] else [f.0]
  {
    assert (files + [f])[..|files|] == files;
  }

  lemma SortDistinct(files: Entries)
    requires DistinctPaths(files)
    ensures DistinctPaths(Sort(files, FilePath))
  {
    var sorted := Sort(files, FilePath);
    SortMultiset(files, FilePath);
    SortStable(files, FilePath);
    forall i | 0 <= i < |sorted| ensures sorted[i].0 != MANIFEST_NAME {
      assert sorted[i] in multiset(files);
      assert sorted[i] in files;
    }
    forall i, j | 0 <= i < j < |sorted| ensures FilePath(sorted[i]) != FilePath(sorted[j]) {
      if FilePath(sorted[i]) == FilePath(sorted[j]) {
        var k := FilePath(sorted[i]);
        TwoInGroup(sorted, i, j);
        var group := WithKey(files, k, FilePath);
        assert group == WithKey(sorted, k, FilePath);
        var n := GroupMember(files, k, FilePath);
        GroupIsSingleton(files, n, FilePath);
        assert false;
      }
    }
  }

  lemma {:induction false} TwoInGroup(files: Entries, i: nat, j: nat)
    requires i < j < |files| && files[i].0 == files[j].0
    ensures |WithKey(files, files[i].0, FilePath)| >= 2
  {
    if i > 0 {
      TwoInGroup(files[1..], i - 1, j - 1);
    } else {
      OneInGroup(files[1..], j - 1);
    }
  }

  lemma {:induction false} OneInGroup(files: Entries, j: nat)
    requires j < |files|
    ensures |WithKey(files, files[j].0, FilePath)| >= 1
  {
    if j > 0 { OneInGroup(files[1..], j - 1); }
  }

  lemma LayoutDistinct(json: Bytes, files: Entries)
    requires DistinctPaths(files)
    ensures DistinctNames(Layout(json, files))
  {
    SortDistinct(files);
    var es, sorted := Layout(json, files), Sort(files, FilePath);
    forall i, j | 0 <= i < j < |es| ensures es[i].0 != es[j].0 {
      assert es[j] == sorted[j - 1];
      if i > 0 { assert es[i] == sorted[i - 1] && FilePath(sorted[i - 1]) != FilePath(sorted[j - 1]); }
    }
  }

  /** A written bundle opens exactly when its manifest is well-formed and its manifest
      JSON is within the limit, and it opens to what was written. */
  lemma WrittenBundleOpens(lib: Libraries, m: Manifest, files: Entries, time: nat)
    requires lib.JsonLaw() && lib.ZipLaw()
    requires DistinctPaths(files) && Written(lib, m, files, time).Ok?
    ensures var (bytes, m') := Written(lib, m, files, time).value;
            var json := lib.toJson(m').value;
            && m' == SortedFiles(m)
            && (Opened(lib, bytes).Ok? <==> WellFormed(m') && |json| <= MAX_FILE_SIZE)
            && (Opened(lib, bytes).Ok? ==> Opened(lib, bytes).value == (m', Stored(Layout(json, files))))
  {
    var m' := SortedFiles(m);
    var json := lib.toJson(m').value;
    var es := Layout(json, files);
    LayoutDistinct(json, files);
    assert lib.unpack(lib.Packed(es, time).value) == Some(Stored(es));
    assert es[0].0 == MANIFEST_NAME;
    StoredMember(es, 0);
    AcceptedIffWellFormed(m');
  }

  lemma SortedListsSame(files: seq<FileEntry>)
    ensures forall e :: e in Sort(files, EntryPath) <==> e in files
    ensures forall path :: Lists(Sort(files, EntryPath), path) <==> Lists(files, path)
  {
    SortMultiset(files, EntryPath);
    forall e ensures e in Sort(files, EntryPath) <==> e in files {
      assert e in Sort(files, EntryPath) <==> e in multiset(Sort(files, EntryPath));
      assert e in files <==> e in multiset(files);
    }
  }

  /** With checksums of the right length, only the header and the paths can be refused. */
  lemma WellFormedByPaths(lib: Libraries, m: Manifest, files: Entries)
    requires lib.HashLaw() && Described(lib, m.files, files)
    ensures WellFormed(SortedFiles(m))
       <==> m.bundleVersion == SCHEMA_VERSION && HeaderDefect(m) == None && forall f | f in files :: SafePath(f.0)
  {
    SortedListsSame(m.files);
    if WellFormed(SortedFiles(m)) {
      forall f | f in files ensures SafePath(f.0) {
        var i :| 0 <= i < |files| && files[i] == f;
        assert Describes(lib, m.files[i], files[i]);
        assert m.files[i] in SortedFiles(m).files;
      }
    }
    if m.bundleVersion == SCHEMA_VERSION && HeaderDefect(m) == None && forall f | f in files :: SafePath(f.0) {
      forall e | e in SortedFiles(m).files ensures SafePath(e.path) && ByteLen(e.sha256) == 64 {
        var i :| 0 <= i < |m.files| && m.files[i] == e;
        assert Describes(lib, m.files[i], files[i]) && files[i] in files;
      }
    }
  }

  /** So the writer, which checks nothing, produces a bundle that can be opened exactly
      when its header is complete, every added path is safe, and its JSON is small enough. */
  lemma OpensExactly(lib: Libraries, m: Manifest, files: Entries, time: nat)
    requires lib.HashLaw() && lib.JsonLaw() && lib.ZipLaw()
    requires Described(lib, m.files, files) && DistinctPaths(files) && Written(lib, m, files, time).Ok?
    ensures Opened(lib, Written(lib, m, files, time).value.0).Ok?
       <==> && m.bundleVersion == SCHEMA_VERSION && HeaderDefect(m) == None
            && (forall f | f in files :: SafePath(f.0))
            && |lib.toJson(SortedFiles(m)).value| <= MAX_FILE_SIZE
  {
    WrittenBundleOpens(lib, m, files, time);
    WellFormedByPaths(lib, m, files);
  }

  /** For example, a harmless name with two dots in it: the writer takes it, and the reader
      refuses the whole bundle. */
  lemma DottedNameRefused(lib: Libraries, m: Manifest, data: Bytes, time: nat)
    requires lib.HashLaw() && lib.JsonLaw() && lib.ZipLaw()
    requires var files := [("notes..txt", data)];
             Described(lib, m.files, files) && Written(lib, m, files, time).Ok?
    ensures Opened(lib, Written(lib, m, [("notes..txt", data)], time).value.0).Err?
  {
    var files := [("notes..txt", data)];
    DottedName();
    assert !SafePath(files[0].0);
    OpensExactly(lib, m, files, time);
  }

  /** The manifest's first entry for file i of the sorted list is entry i, which describes it. */
  lemma FindsItsEntry(lib: Libraries, m: Manifest, files: Entries, i: nat)
    requires DistinctPaths(files) && Described(lib, m.files, files) && i < |files|
    ensures |Sort(files, FilePath)| == |files|
    ensures var f, e := Sort(files, FilePath)[i], FindFile(SortedFiles(m).files, Sort(files, FilePath)[i].0);
            e.Some? && Describes(lib, e.value, f)
  {
    var entries, sorted := Sort(m.files, EntryPath), Sort(files, FilePath);
    SortMultiset(files, FilePath);
    SortedStayDescribed(lib, m.files, files);
    SortDistinct(files);
    assert forall j | 0 <= j < |sorted| :: Describes(lib, entries[j], sorted[j]);
    forall j | 0 <= j < i ensures entries[j].path != entries[i].path {
      assert FilePath(sorted[j]) != FilePath(sorted[i]);
    }
    FindFileIsFirst(entries, i);
  }

  /** The archive holds file i of the sorted list intact. */
  lemma HoldsFile(json: Bytes, files: Entries, i: nat)
    requires DistinctPaths(files) && i < |files|
    ensures |Sort(files, FilePath)| == |files|
    ensures var f, a := Sort(files, FilePath)[i], Stored(Layout(json, files));
            f.0 in a && a[f.0] == Member(|f.1|, Some(f.1))
  {
    SortMultiset(files, FilePath);
    LayoutDistinct(json, files);
    assert Layout(json, files)[i + 1] == Sort(files, FilePath)[i];
    StoredMember(Layout(json, files), i + 1);
  }

  /** Reading file i of the sorted list back gives its data, or the size error. */
  lemma ReadsBack(lib: Libraries, m: Manifest, json: Bytes, files: Entries, i: nat)
    requires DistinctPaths(files) && Described(lib, m.files, files) && i < |files|
    ensures |Sort(files, FilePath)| == |files|
    ensures var (path, data) := Sort(files, FilePath)[i];
            VerifiedRead(lib, SortedFiles(m), Stored(Layout(json, files)), path)
              == if |data| <= MAX_FILE_SIZE then Ok(data) else Err(Io)
  {
    FindsItsEntry(lib, m, files, i);
    HoldsFile(json, files, i);
  }

  lemma {:induction false} FailingIsOversized(
    lib: Libraries, m: Manifest, a: Archive, sorted: Entries, paths: seq<string>)
    requires |paths| == |sorted| && forall i | 0 <= i < |sorted| :: paths[i] == sorted[i].0
    requires forall i | 0 <= i < |sorted| ::
               VerifiedRead(lib, m, a, sorted[i].0).Ok? <==> |sorted[i].1| <= MAX_FILE_SIZE
    ensures Failing(lib, m, a, paths) == Oversized(sorted)
  {
    if |paths| > 0 {
      var n := |paths| - 1;
      assert VerifiedRead(lib, m, a, sorted[n].0).Ok? <==> |sorted[n].1| <= MAX_FILE_SIZE;
      FailingIsOversized(lib, m, a, sorted[..n], paths[..n]);
    }
  }

  /** The round trip. For a writer with pairwise distinct paths, the opened bundle
      returns for every added file exactly its data, or an I/O error when the data is
      over the limit; and verifying everything reports exactly the files over the limit. */
  lemma RoundTrip(lib: Libraries, m: Manifest, files: Entries, time: nat)
    requires lib.JsonLaw() && lib.ZipLaw()
    requires Described(lib, m.files, files) && DistinctPaths(files)
    requires Written(lib, m, files, time).Ok? && Opened(lib, Written(lib, m, files, time).value.0).Ok?
    ensures var (m', a) := Opened(lib, Written(lib, m, files, time).value.0).value;
            && (forall f | f in files ::
                  VerifiedRead(lib, m', a, f.0) == if |f.1| <= MAX_FILE_SIZE then Ok(f.1) else Err(Io))
            && Failing(lib, m', a, ListedPaths(m')) == Oversized(Sort(files, FilePath))
  {
    WrittenBundleOpens(lib, m, files, time);
    var (m', a) := Opened(lib, Written(lib, m, files, time).value.0).value;
    AllReadBack(lib, m, lib.toJson(m').value, files);
    SortedPaths(lib, m, files);
    FailingIsOversized(lib, m', a, Sort(files, FilePath), ListedPaths(m'));
  }

  lemma AllReadBack(lib: Libraries, m: Manifest, json: Bytes, files: Entries)
    requires DistinctPaths(files) && Described(lib, m.files, files)
    ensures |Sort(files, FilePath)| == |files|
    ensures forall i | 0 <= i < |files| :: var f := Sort(files, FilePath)[i];
              VerifiedRead(lib, SortedFiles(m), Stored(Layout(json, files)), f.0)
                == if |f.1| <= MAX_FILE_SIZE then Ok(f.1) else Err(Io)
    ensures forall f | f in files ::
              VerifiedRead(lib, SortedFiles(m), Stored(Layout(json, files)), f.0)
                == if |f.1| <= MAX_FILE_SIZE then Ok(f.1) else Err(Io)
  {
    var sorted := Sort(files, FilePath);
    SortMultiset(files, FilePath);
    forall i | 0 <= i < |files|
      ensures VerifiedRead(lib, SortedFiles(m), Stored(Layout(json, files)), sorted[i].0)
           == if |sorted[i].1| <= MAX_FILE_SIZE then Ok(sorted[i].1) else Err(Io)
    {
      ReadsBack(lib, m, json, files, i);
    }
    forall f | f in files
      ensures VerifiedRead(lib, SortedFiles(m), Stored(Layout(json, files)), f.0)
           == if |f.1| <= MAX_FILE_SIZE then Ok(f.1) else Err(Io)
    {
      assert f in multiset(sorted);
      var i :| 0 <= i < |sorted| && sorted[i] == f;
    }
  }

  /** The manifest lists the paths in archive order. */
  lemma SortedPaths(lib: Libraries, m: Manifest, files: Entries)
    requires Described(lib, m.files, files)
    ensures var paths, sorted := ListedPaths(SortedFiles(m)), Sort(files, FilePath);
            |paths| == |sorted| == |files| && forall i | 0 <= i < |sorted| :: paths[i] == sorted[i].0
  {
    var sorted := Sort(files, FilePath);
    SortMultiset(files, FilePath);
    SortedStayDescribed(lib, m.files, files);
    forall i | 0 <= i < |sorted| ensures ListedPaths(SortedFiles(m))[i] == sorted[i].0 {
      assert Describes(lib, SortedFiles(m).files[i], sorted[i]);
    }
  }

  /** `write_encrypted`: the written bundle inside the envelope. */
  ghost function WrittenEncrypted(lib: Libraries, m: Manifest, files: Entries, time: nat,
                                  passphrase: string, salt: Bytes, nonce: Bytes): Result<Bytes>
  {
    match Written(lib, m, files, time)
    case Err(e) => Err(e)
    case Ok((bytes, _)) => Encrypted(lib, bytes, passphrase, salt, nonce)
  }

  /** An encrypted bundle opens with its passphrase to what the plain bundle opens to,
      and without a passphrase it asks for one; a bundle that is not encrypted opens the
      same way whether or not a passphrase is given. */
  lemma EncryptedBundleOpens(lib: Libraries, m: Manifest, files: Entries, time: nat,
                             passphrase: string, salt: Bytes, nonce: Bytes)
    requires lib.AeadLaw() && |salt| == SALT_LEN && |nonce| == NONCE_LEN
    requires WrittenEncrypted(lib, m, files, time, passphrase, salt, nonce).Ok?
    ensures var plain := Written(lib, m, files, time).value.0;
            var bytes := WrittenEncrypted(lib, m, files, time, passphrase, salt, nonce).value;
            && OpenedWith(lib, bytes, Some(passphrase)) == Opened(lib, plain)
            && OpenedWith(lib, bytes, None) == Err(EncryptedBundleRequiresPassphrase)
            && (!IsEncrypted(plain) ==>
                  OpenedWith(lib, plain, Some(passphrase)) == OpenedWith(lib, plain, None) == Opened(lib, plain))
  {
    DecryptInverts(lib, Written(lib, m, files, time).value.0, passphrase, salt, nonce);
  }

  lemma FileIsListed(lib: Libraries, m: Manifest, files: Entries, f: (string, Bytes))
    requires Described(lib, m.files, files) && f in files
    ensures f.0 in ListedPaths(SortedFiles(m))
  {
    var sorted := Sort(files, FilePath);
    SortMultiset(files, FilePath);
    SortedPaths(lib, m, files);
    assert f in multiset(sorted);
    var i :| 0 <= i < |sorted| && sorted[i] == f;
    assert ListedPaths(SortedFiles(m))[i] == f.0;
  }

  /** Verifying an opened bundle singles out exactly the files over the limit. */
  lemma Delivered(lib: Libraries, m: Manifest, files: Entries, time: nat, f: (string, Bytes))
    requires lib.JsonLaw() && lib.ZipLaw()
    requires Described(lib, m.files, files) && DistinctPaths(files) && f in files
    requires Written(lib, m, files, time).Ok? && Opened(lib, Written(lib, m, files, time).value.0).Ok?
    ensures var (m', a) := Opened(lib, Written(lib, m, files, time).value.0).value;
            && m' == SortedFiles(m)
            && f.0 in ListedPaths(m')
            && Failing(lib, m', a, ListedPaths(m')) == Oversized(Sort(files, FilePath))
            && (f.0 !in Failing(lib, m', a, ListedPaths(m')) <==> |f.1| <= MAX_FILE_SIZE)
  {
    WrittenBundleOpens(lib, m, files, time);
    RoundTrip(lib, m, files, time);
    FileIsListed(lib, m, files, f);
    var (m', a) := Opened(lib, Written(lib, m, files, time).value.0).value;
    FailingExact(lib, m', a, ListedPaths(m'), f.0);
    VerifiedReadExact(lib, m', a, f.0);
  }

  /** The whole way: build, write encrypted, open with the passphrase, verify. It goes through
      exactly when writing does, the manifest is well-formed and its JSON within the limit. */
  method Handoff(writer: BundleWriter, time: nat, passphrase: string, salt: Bytes, nonce: Bytes)
    returns (r: Result<(Bytes, BundleReader, seq<string>)>)
    requires writer.Valid() && |salt| == SALT_LEN && |nonce| == NONCE_LEN
    requires writer.lib.JsonLaw() && writer.lib.ZipLaw() && writer.lib.AeadLaw()
    requires DistinctPaths(writer.files)
    modifies writer, writer.manifest
    ensures var m := SortedFiles(old(writer.manifest.data));
            r.Ok? <==>
              && WrittenEncrypted(writer.lib, old(writer.manifest.data), old(writer.files), time,
                                  passphrase, salt, nonce).Ok?
              && WellFormed(m) && |writer.lib.toJson(m).value| <= MAX_FILE_SIZE
    ensures r.Ok? ==>
              var (bytes, reader, failures) := r.value;
              && WrittenEncrypted(writer.lib, old(writer.manifest.data), old(writer.files), time,
                                  passphrase, salt, nonce) == Ok(bytes)
              && reader.manifest == SortedFiles(old(writer.manifest.data))
              && failures == Oversized(Sort(old(writer.files), FilePath))
              && forall f | f in old(writer.files) :: reader.IsVerified(f.0) <==> |f.1| <= MAX_FILE_SIZE
  {
    ghost var lib, m, files := writer.lib, writer.manifest.data, writer.files;
    var written := writer.WriteToVec(time);
    if written.Err? {
      return Err(written.error);
    }
    var encrypted := EncryptBytes(writer.lib, written.value.0, passphrase, salt, nonce);
    if encrypted.Err? {
      return Err(encrypted.error);
    }
    var received := OpenWithPassphrase(writer.lib, encrypted.value, Some(passphrase));
    EncryptedBundleOpens(lib, m, files, time, passphrase, salt, nonce);
    WrittenBundleOpens(lib, m, files, time);
    if received.Err? {
      return Err(received.error);
    }
    var reader := received.value;
    assert Opened(lib, written.value.0) == Ok((reader.manifest, reader.archive));
    var failures := reader.VerifyAll();
    forall f | f in files ensures reader.IsVerified(f.0) <==> |f.1| <= MAX_FILE_SIZE {
      Delivered(lib, m, files, time, f);
    }
    Delivered(lib, m, files, time, files[0]);
    r := Ok((encrypted.value, reader, failures));
  }

  /** The same files added in any order, and written at any two times, make bundles that open
      alike. */
  lemma RewrittenOpensAlike(lib: Libraries, m: Manifest, adds: seq<Added>, adds': seq<Added>, time: nat, time': nat)
    requires lib.ZipLaw() && multiset(adds) == multiset(adds')
    requires DistinctKeys(adds, AddedPath) && DistinctKeys(adds', AddedPath) && DistinctPaths(FilesOf(adds))
    requires Written(lib, m.(files := EntriesOf(lib, adds)), FilesOf(adds), time).Ok?
    requires Written(lib, m.(files := EntriesOf(lib, adds')), FilesOf(adds'), time').Ok?
    ensures Opened(lib, Written(lib, m.(files := EntriesOf(lib, adds)), FilesOf(adds), time).value.0)
         == Opened(lib, Written(lib, m.(files := EntriesOf(lib, adds')), FilesOf(adds'), time').value.0)
  {
    InsertionOrderIrrelevant(lib, m, adds, adds');
    var m', files := SortedFiles(m.(files := EntriesOf(lib, adds))), FilesOf(adds);
    var es := Layout(lib.toJson(m').value, files);
    LayoutDistinct(lib.toJson(m').value, files);
    assert lib.unpack(lib.Packed(es, time).value) == Some(Stored(es)) == lib.unpack(lib.Packed(es, time').value);
  }
}
