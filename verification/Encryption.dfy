/** The PTBENC01 envelope (pt-bundle/src/encryption.rs):
    magic (8) | iterations, big-endian (4) | salt (16) | nonce (12) | ciphertext and tag. */
module Encryption {
  import opened Wrappers
  import opened Utf8
  import opened Manifests
  import opened Platform

  // "PTBENC01"
  const MAGIC: Bytes := [0x50, 0x54, 0x42, 0x45, 0x4E, 0x43, 0x30, 0x31]
  const SALT_LEN := 16
  const NONCE_LEN := 12
  const KDF_ITERS := 100_000
  const MAX_KDF_ITERS := 10_000_000
  const HEADER_LEN := 8 + 4 + SALT_LEN + NONCE_LEN

  datatype Header = Header(iterations: nat, salt: Bytes, nonce: Bytes)

  /** `u32::to_be_bytes`. */
  function BigEndian(n: nat): Bytes
    requires n < 0x1_0000_0000
  {
    var n1 := n / 0x100;
    var n2 := n1 / 0x100;
    [n2 / 0x100, n2 % 0x100, n1 % 0x100, n % 0x100]
  }

  /** `u32::from_be_bytes`. */
  function FromBigEndian(b: Bytes): (n: nat)
    requires |b| == 4
    ensures n < 0x1_0000_0000
  {
    var n3: int := b[0];
    var n2 := n3 * 0x100 + b[1];
    var n1 := n2 * 0x100 + b[2];
    n1 * 0x100 + b[3]
  }

  lemma BigEndianInverse(n: nat, b: Bytes)
    requires n < 0x1_0000_0000 && |b| == 4
    ensures FromBigEndian(BigEndian(n)) == n
    ensures BigEndian(FromBigEndian(b)) == b
  {
    var n3: int := b[0];
    var n2 := n3 * 0x100 + b[1];
    var n1 := n2 * 0x100 + b[2];
    var v := n1 * 0x100 + b[3];
    assert v / 0x100 == n1 && v % 0x100 == b[3];
    assert n1 / 0x100 == n2 && n1 % 0x100 == b[2];
    assert n2 / 0x100 == n3 && n2 % 0x100 == b[1];
  }

  /** `is_encrypted`. */
  predicate IsEncrypted(bytes: Bytes) { MAGIC <= bytes }

  predicate HeaderFits(h: Header) {
    1 <= h.iterations <= MAX_KDF_ITERS && |h.salt| == SALT_LEN && |h.nonce| == NONCE_LEN
  }

  /** The printer: the envelope with this header and this body. */
  function Envelope(h: Header, body: Bytes): Bytes
    requires h.iterations < 0x1_0000_0000
  {
    MAGIC + BigEndian(h.iterations) + h.salt + h.nonce + body
  }

  /** `copy_from_slice` into a fixed buffer: the range must lie within the input. */
  method CopySlice(buffer: array<Byte>, bytes: Bytes, offset: nat)
    requires offset + buffer.Length <= |bytes|
    modifies buffer
    ensures buffer[..] == bytes[offset..offset + buffer.Length]
  {
    forall k | 0 <= k < buffer.Length { buffer[k] := bytes[offset + k]; }
  }

  /** The parser inverts the printer: it accepts exactly the inputs that are some
      envelope with a fitting header, and returns that header. Every input, of any
      length, has one of the three outcomes. */
  method ParseHeader(bytes: Bytes) returns (r: Result<Header>)
    ensures r.Ok? ==> HeaderFits(r.value) && |bytes| >= HEADER_LEN
                      && bytes == Envelope(r.value, bytes[HEADER_LEN..])
    ensures forall h, body | HeaderFits(h) && bytes == Envelope(h, body) :: r == Ok(h)
    ensures r == Err(NotEncrypted) <==> |bytes| >= HEADER_LEN && !IsEncrypted(bytes)
    ensures r.Err? ==> r.error == NotEncrypted || r.error == InvalidEncryptionHeader
    ensures r == HeaderOf(bytes)
  {
    HeaderExact(bytes);
    if |bytes| < HEADER_LEN {
      return Err(InvalidEncryptionHeader);
    }
    if !IsEncrypted(bytes) {
      return Err(NotEncrypted);
    }
    var offset := |MAGIC|;
    var iterBytes := new Byte[4];
    CopySlice(iterBytes, bytes, offset);
    var iterations := FromBigEndian(iterBytes[..]);
    offset := offset + 4;

    var salt := new Byte[SALT_LEN];
    CopySlice(salt, bytes, offset);
    offset := offset + SALT_LEN;

    var nonce := new Byte[NONCE_LEN];
    CopySlice(nonce, bytes, offset);

    if iterations == 0 || iterations > MAX_KDF_ITERS {
      return Err(InvalidEncryptionHeader);
    }
    r := Ok(Header(iterations, salt[..], nonce[..]));
  }

  /** The parser on values. */
  function HeaderOf(bytes: Bytes): Result<Header> {
    if |bytes| < HEADER_LEN then Err(InvalidEncryptionHeader)
    else if !IsEncrypted(bytes) then Err(NotEncrypted)
    else
      var n := FromBigEndian(bytes[8..12]);
      if n == 0 || n > MAX_KDF_ITERS then Err(InvalidEncryptionHeader)
      else Ok(Header(n, bytes[12..28], bytes[28..40]))
  }

  lemma EnvelopeParts(h: Header, body: Bytes)
    requires HeaderFits(h)
    ensures var b := Envelope(h, body);
            |b| == HEADER_LEN + |body| && b[..8] == MAGIC && b[8..12] == BigEndian(h.iterations)
            && b[12..28] == h.salt && b[28..40] == h.nonce && b[40..] == body
  {}

  lemma PartsOf(bytes: Bytes)
    requires |bytes| >= HEADER_LEN
    ensures bytes == bytes[..8] + bytes[8..12] + bytes[12..28] + bytes[28..40] + bytes[HEADER_LEN..]
  {}

  /** Parsing succeeds exactly on envelopes, and then printing gives the input back. */
  lemma HeaderExact(bytes: Bytes)
    ensures HeaderOf(bytes).Ok? ==>
              HeaderFits(HeaderOf(bytes).value) && bytes == Envelope(HeaderOf(bytes).value, bytes[HEADER_LEN..])
    ensures forall h, body | HeaderFits(h) && bytes == Envelope(h, body) :: HeaderOf(bytes) == Ok(h)
  {
    if HeaderOf(bytes).Ok? {
      BigEndianInverse(0, bytes[8..12]);
      PartsOf(bytes);
    }
    forall h, body | HeaderFits(h) && bytes == Envelope(h, body) ensures HeaderOf(bytes) == Ok(h) {
      EnvelopeParts(h, body);
      BigEndianInverse(h.iterations, bytes[8..12]);
    }
  }

  /** The bytes of an envelope. */
  lemma EnvelopeBytes(h: Header, body: Bytes)
    requires 1 <= h.iterations <= 10_000_000 && |h.salt| == 16 && |h.nonce| == 12
    ensures var b := Envelope(h, body);
            && |b| == 40 + |body|
            && b[0..8] == [0x50, 0x54, 0x42, 0x45, 0x4E, 0x43, 0x30, 0x31]
            && b[8] as int * 0x100_0000 + b[9] as int * 0x1_0000 + b[10] as int * 0x100 + b[11] as int == h.iterations
            && b[12..28] == h.salt && b[28..40] == h.nonce && b[40..] == body
  {
    EnvelopeParts(h, body);
    var b, n := Envelope(h, body), BigEndian(h.iterations);
    BigEndianInverse(h.iterations, n);
    assert b[8] == b[8..12][0] && b[9] == b[8..12][1] && b[10] == b[8..12][2] && b[11] == b[8..12][3];
  }

  /** What the parser refuses, in order. */
  lemma HeaderRefusals(bytes: Bytes)
    ensures |bytes| < 40 ==> HeaderOf(bytes) == Err(InvalidEncryptionHeader)
    ensures |bytes| >= 40 && bytes[0..8] != [0x50, 0x54, 0x42, 0x45, 0x4E, 0x43, 0x30, 0x31] ==>
              HeaderOf(bytes) == Err(NotEncrypted)
    ensures |bytes| >= 40 && bytes[0..8] == [0x50, 0x54, 0x42, 0x45, 0x4E, 0x43, 0x30, 0x31] ==>
              var n := bytes[8] as int * 0x100_0000 + bytes[9] as int * 0x1_0000 + bytes[10] as int * 0x100
                       + bytes[11] as int;
              HeaderOf(bytes) == if 1 <= n <= 10_000_000 then Ok(Header(n, bytes[12..28], bytes[28..40]))
                                 else Err(InvalidEncryptionHeader)
  {
    assert |bytes| >= 40 ==> (MAGIC <= bytes <==> bytes[0..8] == MAGIC);
  }

  // -------------------------------------------------------------- encryption

  /** The salt and nonce drawn from the operating system are parameters. */
  ghost function Encrypted(
    lib: Libraries, plaintext: Bytes, passphrase: string, salt: Bytes, nonce: Bytes): Result<Bytes>
  {
    if passphrase == "" then Err(MissingPassphrase)
    else match lib.seal(lib.kdf(passphrase, salt, KDF_ITERS), nonce, plaintext)
         case None => Err(EncryptionFailed)
         case Some(c) => Ok(Envelope(Header(KDF_ITERS, salt, nonce), c))
  }

  ghost function Decrypted(lib: Libraries, bytes: Bytes, passphrase: string): Result<Bytes> {
    if passphrase == "" then Err(MissingPassphrase)
    else match HeaderOf(bytes)
         case Err(e) => Err(e)
         case Ok(h) =>
           if |bytes| == HEADER_LEN then Err(InvalidEncryptionHeader)
           else match lib.open(lib.kdf(passphrase, h.salt, h.iterations), h.nonce, bytes[HEADER_LEN..])
                case None => Err(DecryptionFailed)
                case Some(p) => Ok(p)
  }

  method EncryptBytes(lib: Libraries, plaintext: Bytes, passphrase: string, salt: Bytes, nonce: Bytes)
    returns (r: Result<Bytes>)
    ensures r == Encrypted(lib, plaintext, passphrase, salt, nonce)
  {
    if passphrase == "" {
      return Err(MissingPassphrase);
    }
    var key := lib.kdf(passphrase, salt, KDF_ITERS);
    var ciphertext := lib.seal(key, nonce, plaintext);
    if ciphertext.None? {
      return Err(EncryptionFailed);
    }
    var output: Bytes := [];
    output := output + MAGIC;
    output := output + BigEndian(KDF_ITERS);
    output := output + salt;
    output := output + nonce;
    output := output + ciphertext.value;
    assert output == Envelope(Header(KDF_ITERS, salt, nonce), ciphertext.value);
    r := Ok(output);
  }

  method DecryptBytes(lib: Libraries, bytes: Bytes, passphrase: string) returns (r: Result<Bytes>)
    ensures r == Decrypted(lib, bytes, passphrase)
  {
    if passphrase == "" {
      return Err(MissingPassphrase);
    }
    var header := ParseHeader(bytes);
    if header.Err? {
      return Err(header.error);
    }
    var h := header.value;
    var ciphertext := bytes[HEADER_LEN..];
    if |ciphertext| == 0 {
      return Err(InvalidEncryptionHeader);
    }
    var key := lib.kdf(passphrase, h.salt, h.iterations);
    var plaintext := lib.open(key, h.nonce, ciphertext);
    r := if plaintext.None? then Err(DecryptionFailed) else Ok(plaintext.value);
  }

  /** What encryption yields: 100,000 rounds of key derivation, then the sealed text behind its
      header. */
  lemma EncryptedSpelledOut(lib: Libraries, plaintext: Bytes, passphrase: string, salt: Bytes, nonce: Bytes)
    ensures passphrase == "" ==> Encrypted(lib, plaintext, passphrase, salt, nonce) == Err(MissingPassphrase)
    ensures passphrase != "" ==>
              var c := lib.seal(lib.kdf(passphrase, salt, 100_000), nonce, plaintext);
              Encrypted(lib, plaintext, passphrase, salt, nonce)
              == if c.None? then Err(EncryptionFailed) else Ok(Envelope(Header(100_000, salt, nonce), c.value))
  {}

  /** What decryption yields, the errors in order. */
  lemma DecryptedSpelledOut(lib: Libraries, bytes: Bytes, passphrase: string)
    ensures passphrase == "" ==> Decrypted(lib, bytes, passphrase) == Err(MissingPassphrase)
    ensures passphrase != "" && HeaderOf(bytes).Err? ==>
              Decrypted(lib, bytes, passphrase) == Err(HeaderOf(bytes).error)
    ensures passphrase != "" && HeaderOf(bytes).Ok? ==>
              var h := HeaderOf(bytes).value;
              if |bytes| == 40 then Decrypted(lib, bytes, passphrase) == Err(InvalidEncryptionHeader)
              else var p := lib.open(lib.kdf(passphrase, h.salt, h.iterations), h.nonce, bytes[40..]);
                   Decrypted(lib, bytes, passphrase) == if p.None? then Err(DecryptionFailed) else Ok(p.value)
  {}

  /** Decryption inverts encryption, the empty plaintext included; the overhead is 56 bytes. */
  lemma DecryptInverts(lib: Libraries, plaintext: Bytes, passphrase: string, salt: Bytes, nonce: Bytes)
    requires lib.AeadLaw() && |salt| == SALT_LEN && |nonce| == NONCE_LEN
    requires Encrypted(lib, plaintext, passphrase, salt, nonce).Ok?
    ensures var bytes := Encrypted(lib, plaintext, passphrase, salt, nonce).value;
            && IsEncrypted(bytes) && |bytes| == |plaintext| + 56
            && Decrypted(lib, bytes, passphrase) == Ok(plaintext)
  {
    var c := lib.seal(lib.kdf(passphrase, salt, KDF_ITERS), nonce, plaintext).value;
    var h := Header(KDF_ITERS, salt, nonce);
    EnvelopeParts(h, c);
    HeaderExact(Envelope(h, c));
  }

  /** And nothing else decrypts: with a deterministic cipher, an input yields a plaintext
      exactly when it is the envelope of that plaintext's own ciphertext. */
  lemma OnlyEnvelopesDecrypt(lib: Libraries, bytes: Bytes, passphrase: string, plaintext: Bytes)
    requires lib.AeadLaw() && lib.AeadAuthentic() && passphrase != ""
    ensures Decrypted(lib, bytes, passphrase) == Ok(plaintext)
       <==> exists h | HeaderFits(h) ::
              var c := lib.seal(lib.kdf(passphrase, h.salt, h.iterations), h.nonce, plaintext);
              c.Some? && bytes == Envelope(h, c.value)
  {
    HeaderExact(bytes);
    if Decrypted(lib, bytes, passphrase) == Ok(plaintext) {
      var h := HeaderOf(bytes).value;
      assert lib.seal(lib.kdf(passphrase, h.salt, h.iterations), h.nonce, plaintext) == Some(bytes[HEADER_LEN..]);
      assert HeaderFits(h);
    }
    if h :| HeaderFits(h) &&
            var c := lib.seal(lib.kdf(passphrase, h.salt, h.iterations), h.nonce, plaintext);
            c.Some? && bytes == Envelope(h, c.value)
    {
      var c := lib.seal(lib.kdf(passphrase, h.salt, h.iterations), h.nonce, plaintext).value;
      EnvelopeParts(h, c);
      assert HeaderOf(bytes) == Ok(h);
    }
  }
}
