/** The libraries the bundle code calls, as parameters, and the laws it relies on:
    hashing, JSON, the ZIP container and authenticated encryption. */
module Platform {
  import opened Wrappers
  import opened Utf8
  import opened Manifests

  /** A member of an opened archive: the size its header declares, and what reading
      it yields (None when decompression or the archive's own checksum fails). */
  datatype Member = Member(size: nat, content: Option<Bytes>)

  /** `ZipArchive::by_name` of an opened archive. */
  type Archive = map<string, Member>

  /** What the writer hands to the container, in order. */
  type Entries = seq<(string, Bytes)>

  datatype Libraries = Libraries(
    sha256Hex: Bytes -> string,
    isUtf8: Bytes -> bool,
    toJson: Manifest -> Option<Bytes>,
    fromJson: Bytes -> Option<Manifest>,
    // does `start_file` accept this name after those entries?
    startFile: (Entries, string) -> bool,
    // does `write_all` of this entry's data succeed after those entries?
    writeAll: (Entries, string, Bytes) -> bool,
    // `finish`; every member is stamped with the time of writing
    pack: (Entries, nat) -> Option<Bytes>,
    unpack: Bytes -> Option<Archive>,
    // passphrase, salt, iterations -> key
    kdf: (string, Bytes, nat) -> Bytes,
    // key, nonce, plaintext -> ciphertext with tag
    seal: (Bytes, Bytes, Bytes) -> Option<Bytes>,
    // key, nonce, ciphertext with tag -> plaintext
    open: (Bytes, Bytes, Bytes) -> Option<Bytes>)
  {
    /** A checksum is 64 (ASCII) hexadecimal characters. */
    ghost predicate HashLaw() {
      forall d :: ByteLen(sha256Hex(d)) == 64
    }

    /** Parsing inverts printing, and what is printed is text. */
    ghost predicate JsonLaw() {
      forall m :: toJson(m).Some? ==> isUtf8(toJson(m).value) && fromJson(toJson(m).value) == Some(m)
    }

    /** Why one entry cannot be appended: a container error, or an error of the data write. */
    function EntryRefusal(before: Entries, name: string, data: Bytes): Option<BundleError> {
      if !startFile(before, name) then Some(Zip)
      else if !writeAll(before, name, data) then Some(Io)
      else None
    }

    /** Why an archive of these entries cannot be written: the first entry's refusal. */
    function Refusal(es: Entries): Option<BundleError> {
      if |es| == 0 then None
      else
        var before, last := es[..|es| - 1], es[|es| - 1];
        if Refusal(before).Some? then Refusal(before) else EntryRefusal(before, last.0, last.1)
    }

    /** The archive of these entries, written one after the other and finished. */
    function Packed(es: Entries, time: nat): Result<Bytes> {
      if Refusal(es).Some? then Err(Refusal(es).value)
      else if pack(es, time).None? then Err(Zip)
      else Ok(pack(es, time).value)
    }

    lemma {:induction false} RefusalPersists(es: Entries, k: nat)
      requires k <= |es| && Refusal(es[..k]).Some?
      ensures Refusal(es) == Refusal(es[..k])
    {
      if k < |es| {
        assert es[..|es| - 1][..k] == es[..k];
        RefusalPersists(es[..|es| - 1], k);
      } else {
        assert es[..k] == es;
      }
    }

    /** The first entry that is refused decides: for its name a container error, for its data
        an I/O error. When none is, finishing decides. */
    lemma FirstRefusal(es: Entries, k: nat, time: nat)
      requires k <= |es| && forall i | 0 <= i < k :: startFile(es[..i], es[i].0) && writeAll(es[..i], es[i].0, es[i].1)
      ensures k < |es| && !startFile(es[..k], es[k].0) ==> Packed(es, time) == Err(Zip)
      ensures k < |es| && startFile(es[..k], es[k].0) && !writeAll(es[..k], es[k].0, es[k].1) ==>
                Packed(es, time) == Err(Io)
      ensures k == |es| ==>
                Packed(es, time) == if pack(es, time).None? then Err(Zip) else Ok(pack(es, time).value)
    {
      NoRefusal(es, k);
      assert es[..|es|] == es;
      if k < |es| {
        assert es[..k + 1][..k] == es[..k];
        if Refusal(es[..k + 1]).Some? { RefusalPersists(es, k + 1); }
      }
    }

    lemma {:induction false} NoRefusal(es: Entries, k: nat)
      requires k <= |es| && forall i | 0 <= i < k :: startFile(es[..i], es[i].0) && writeAll(es[..i], es[i].0, es[i].1)
      ensures Refusal(es[..k]) == None
    {
      if k > 0 {
        NoRefusal(es, k - 1);
        assert es[..k][..k - 1] == es[..k - 1];
      }
    }

    /** A finished archive with pairwise distinct names opens with exactly those members,
        whenever it was written. */
    ghost predicate ZipLaw() {
      forall es: Entries, time ::
        DistinctNames(es) && Packed(es, time).Ok? ==> unpack(Packed(es, time).value) == Some(Stored(es))
    }

    /** Opening inverts sealing; the tag has 16 bytes (section 2.8 of RFC 8439). */
    ghost predicate AeadLaw() {
      forall k, n, p :: seal(k, n, p).Some? ==>
        |seal(k, n, p).value| == |p| + 16 && open(k, n, seal(k, n, p).value) == Some(p)
    }

    /** The cipher is deterministic: only the sealed text opens. */
    ghost predicate AeadAuthentic() {
      forall k, n, c :: open(k, n, c).Some? ==> seal(k, n, open(k, n, c).value) == Some(c)
    }
  }

  ghost predicate DistinctNames(es: Entries) {
    forall i, j | 0 <= i < j < |es| :: es[i].0 != es[j].0
  }

  /** The members of an archive that holds the given entries intact. */
  function Stored(es: Entries): Archive {
    if |es| == 0 then map[]
    else Stored(es[..|es| - 1])[es[|es| - 1].0 := Member(|es[|es| - 1].1|, Some(es[|es| - 1].1))]
  }

  lemma {:induction false} StoredMember(es: Entries, i: nat)
    requires i < |es| && DistinctNames(es)
    ensures es[i].0 in Stored(es) && Stored(es)[es[i].0] == Member(|es[i].1|, Some(es[i].1))
  {
    if i < |es| - 1 { StoredMember(es[..|es| - 1], i); }
  }

  /** A later member of the same name replaces the earlier one. */
  lemma StoredAfter(es: Entries, name: string, data: Bytes)
    ensures Stored(es + [(name, data)]) == Stored(es)[name := Member(|data|, Some(data))]
    ensures Stored([]) == map[]
  {
    assert (es + [(name, data)])[..|es|] == es;
  }

  lemma {:induction false} StoredNames(es: Entries, name: string)
    ensures name in Stored(es) <==> exists i | 0 <= i < |es| :: es[i].0 == name
  {
    if |es| > 0 {
      StoredNames(es[..|es| - 1], name);
      if exists i | 0 <= i < |es| :: es[i].0 == name {
        var i :| 0 <= i < |es| && es[i].0 == name;
        if i < |es| - 1 { assert es[..|es| - 1][i].0 == name; }
      }
    }
  }
}
