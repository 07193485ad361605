/**
 The backup wire formats (src/backup.rs): v1 is a timestamp line and a sealed
 bundle; v2 and v3 are a magic, a version, a length-prefixed plaintext header and
 a sealed snapshot, where v3 binds the header bytes as associated data.

 JSON, base64, the hash-based key derivations, Argon2id and AES-256-GCM are the
 functions of a `Codec`; `Ideal` says what is assumed of them.
 */
module BackupFormat {
  import opened Common
  import opened Utf8Text

  datatype Component = Component(name: Bytes, xxh3: Bytes, size: nat, secret: bool)

  datatype Manifest = Manifest(createdAt: Bytes, version: Bytes, components: seq<Component>)

  datatype Header = Header(kdf: Bytes, m: int, t: int, p: int, salt: Bytes, nonce: Bytes,
                           createdAt: Bytes, manifest: Manifest)

  datatype Codec = Codec(
    headerJson: Header -> Bytes, readHeader: Bytes -> Option<Header>,
    manifestJson: Manifest -> Bytes, readManifest: Bytes -> Option<Manifest>,
    base64: Bytes -> Bytes, readBase64: Bytes -> Option<Bytes>,
    validUtf8: Bytes -> bool,
    keyV1: Bytes -> Bytes, nonceV1: (Bytes, Bytes) -> Bytes,
    argon2id: (Bytes, Bytes, int, int, int) -> Bytes,
    /* key, nonce, associated data, message */
    seal: (Bytes, Bytes, Bytes, Bytes) -> Bytes,
    open: (Bytes, Bytes, Bytes, Bytes) -> Option<Bytes>)

  /** Readers undo writers; sealing is undone by opening under the same key, nonce and
      associated data, opens under no others, and nothing opens but a sealed message. */
  ghost predicate Ideal(c: Codec) {
    && (forall h :: c.headerJson(h) != [] && c.readHeader(c.headerJson(h)) == Some(h))
    && (forall m :: c.readManifest(c.manifestJson(m)) == Some(m))
    && (forall b :: c.readBase64(c.base64(b)) == Some(b))
    && IdealSeal(c.seal, c.open)
  }

  ghost predicate IdealSeal(seal: (Bytes, Bytes, Bytes, Bytes) -> Bytes, open: (Bytes, Bytes, Bytes, Bytes) -> Option<Bytes>) {
    && (forall k, n, a, m :: open(k, n, a, seal(k, n, a, m)) == Some(m))
    && (forall k, n, a, m, k', n', a' :: open(k', n', a', seal(k, n, a, m)).Some? ==> k' == k && n' == n && a' == a)
    && (forall k, n, a, ct :: open(k, n, a, ct).Some? ==> seal(k, n, a, open(k, n, a, ct).value) == ct)
  }

  datatype Error =
    | Truncated | BadMagic | UnsupportedVersion | HeaderExceedsFile | BadHeader | UnsupportedKdf
    | KdfParamsOutOfRange | BadSaltOrNonce | AuthenticationFailed
    | MissingTimestamp | TimestampNotUtf8 | BundleTooShort | ManifestExceedsBundle | BadManifest

  // ---- little-endian integers ----

  function Pow256(k: nat): nat { if k == 0 then 1 else 256 * Pow256(k - 1) }

  /** The low `k` bytes of `n`: larger values are truncated, as an `as u32` cast does. */
  function LittleEndian(n: nat, k: nat): (r: Bytes)
    ensures |r| == k
  {
    if k == 0 then [] else [(n % 256) as byte] + LittleEndian(n / 256, k - 1)
  }

  function FromLittleEndian(b: Bytes): nat {
    if b == [] then 0 else b[0] as int + 256 * FromLittleEndian(b[1..])
  }

  lemma {:induction false} LittleEndianRoundTrip(n: nat, k: nat)
    requires n < Pow256(k)
    ensures FromLittleEndian(LittleEndian(n, k)) == n
  {
    if k > 0 {
      LittleEndianRoundTrip(n / 256, k - 1);
      assert LittleEndian(n, k)[1..] == LittleEndian(n / 256, k - 1);
    }
  }

  // ---- writers ----

  const MAGIC: Bytes := [66, 83, 66, 75]  // "BSBK"
  const ARGON2ID: Bytes := [97, 114, 103, 111, 110, 50, 105, 100]
  const VERSION_V2: nat := 2
  const VERSION_V3: nat := 3
  const ARGON2_M: int := 65536
  const ARGON2_T: int := 3
  const ARGON2_P: int := 1
  const KDF_M_MIN: int := 8 * 1024
  const KDF_M_MAX: int := 1_048_576
  const KDF_T_MAX: int := 64
  const KDF_P_MAX: int := 8

  /** The layout shared by v2 and v3. */
  function Assemble(version: nat, header: Bytes, ciphertext: Bytes): Bytes {
    MAGIC + LittleEndian(version, 2) + LittleEndian(|header|, 4) + header + ciphertext
  }

  function HeaderFor(c: Codec, manifest: Manifest, createdAt: Bytes, salt: Bytes, nonce: Bytes): Header {
    Header(ARGON2ID, ARGON2_M, ARGON2_T, ARGON2_P, c.base64(salt), c.base64(nonce), createdAt, manifest)
  }

  function SealSnapshot(c: Codec, header: Bytes, snapshot: Bytes, passphrase: Bytes, salt: Bytes, nonce: Bytes,
                        version: nat): Bytes
  {
    c.seal(c.argon2id(passphrase, salt, ARGON2_M, ARGON2_T, ARGON2_P), nonce,
           if version == VERSION_V3 then header else [], snapshot)
  }

  /** A v2 or v3 backup file; salt and nonce are drawn at random per backup. */
  method EncryptVersioned(c: Codec, manifest: Manifest, snapshot: Bytes, passphrase: Bytes, createdAt: Bytes,
                          version: nat, salt: Bytes, nonce: Bytes)
    returns (out: Bytes)
    requires version == VERSION_V2 || version == VERSION_V3
    ensures out == VersionedFile(c, manifest, snapshot, passphrase, createdAt, version, salt, nonce)
  {
    var header := c.headerJson(HeaderFor(c, manifest, createdAt, salt, nonce));
    var ciphertext := SealSnapshot(c, header, snapshot, passphrase, salt, nonce, version);
    out := [];
    out := out + MAGIC;
    out := out + LittleEndian(version, 2);
    out := out + LittleEndian(|header|, 4);
    out := out + header;
    out := out + ciphertext;
  }

  function VersionedFile(c: Codec, manifest: Manifest, snapshot: Bytes, passphrase: Bytes, createdAt: Bytes,
                         version: nat, salt: Bytes, nonce: Bytes): Bytes
  {
    var header := c.headerJson(HeaderFor(c, manifest, createdAt, salt, nonce));
    Assemble(version, header, SealSnapshot(c, header, snapshot, passphrase, salt, nonce, version))
  }

  /** v1 carries the manifest inside the sealed bundle. */
  method BuildBundle(c: Codec, manifest: Manifest, snapshot: Bytes) returns (bundle: Bytes)
    ensures bundle == Bundle(c, manifest, snapshot)
  {
    var json := c.manifestJson(manifest);
    bundle := [];
    bundle := bundle + LittleEndian(|json|, 8);
    bundle := bundle + json;
    bundle := bundle + snapshot;
  }

  function Bundle(c: Codec, manifest: Manifest, snapshot: Bytes): Bytes {
    LittleEndian(|c.manifestJson(manifest)|, 8) + c.manifestJson(manifest) + snapshot
  }

  method EncryptV1(c: Codec, bundle: Bytes, passphrase: Bytes, createdAt: Bytes) returns (out: Bytes)
    ensures out == V1File(c, bundle, passphrase, createdAt)
  {
    var ciphertext := c.seal(c.keyV1(passphrase), c.nonceV1(passphrase, createdAt), [], bundle);
    out := [];
    out := out + createdAt;
    out := out + [NEWLINE];
    out := out + ciphertext;
  }

  function V1File(c: Codec, bundle: Bytes, passphrase: Bytes, createdAt: Bytes): Bytes {
    createdAt + [NEWLINE] + c.seal(c.keyV1(passphrase), c.nonceV1(passphrase, createdAt), [], bundle)
  }

  // ---- readers ----

  datatype Parsed = Parsed(version: nat, header: Header, headerBytes: Bytes, ciphertext: Bytes)

  predicate KdfParamsOk(h: Header) {
    KDF_M_MIN <= h.m <= KDF_M_MAX && 1 <= h.t <= KDF_T_MAX && 1 <= h.p <= KDF_P_MAX
  }

  function ParseVersionedFile(c: Codec, full: Bytes): Result<Parsed, Error> {
    if |full| < 10 then Err(Truncated)
    else if full[..4] != MAGIC then Err(BadMagic)
    else
      var version := FromLittleEndian(full[4..6]);
      if version != VERSION_V2 && version != VERSION_V3 then Err(UnsupportedVersion)
      else
        var headerEnd := 10 + FromLittleEndian(full[6..10]);
        if headerEnd > |full| then Err(HeaderExceedsFile)
        else match c.readHeader(full[10..headerEnd])
          case None => Err(BadHeader)
          case Some(h) =>
            if h.kdf != ARGON2ID then Err(UnsupportedKdf)
            else if !KdfParamsOk(h) then Err(KdfParamsOutOfRange)
            else Ok(Parsed(version, h, full[10..headerEnd], full[headerEnd..]))
  }

  function DecryptVersioned(c: Codec, p: Parsed, passphrase: Bytes): Result<Bytes, Error> {
    var salt, nonce := c.readBase64(p.header.salt), c.readBase64(p.header.nonce);
    if salt.None? || nonce.None? || |salt.value| != 16 || |nonce.value| != 12 then Err(BadSaltOrNonce)
    else
      var key := c.argon2id(passphrase, salt.value, p.header.m, p.header.t, p.header.p);
      var aad := if p.version == VERSION_V3 then p.headerBytes else [];
      match c.open(key, nonce.value, aad, p.ciphertext)
      case None => Err(AuthenticationFailed)
      case Some(snapshot) => Ok(snapshot)
  }

  /** The position of the first newline. */
  function FirstNewline(b: Bytes): (r: Option<nat>)
    ensures r.Some? ==> r.value < |b| && b[r.value] == NEWLINE && NEWLINE !in b[..r.value]
    ensures r.None? ==> NEWLINE !in b
  {
    if b == [] then None
    else if b[0] == NEWLINE then Some(0)
    else match FirstNewline(b[1..])
      case None => None
      case Some(i) => assert b[..i + 1] == [b[0]] + b[1..][..i]; Some(i + 1)
  }

  function SplitHeader(c: Codec, data: Bytes): Result<(Bytes, Bytes), Error> {
    match FirstNewline(data)
    case None => Err(MissingTimestamp)
    case Some(i) => if c.validUtf8(data[..i]) then Ok((data[..i], data[i + 1..])) else Err(TimestampNotUtf8)
  }

  function ParseBundle(c: Codec, bundle: Bytes): Result<(Manifest, Bytes), Error> {
    if |bundle| < 8 then Err(BundleTooShort)
    else
      var end := 8 + FromLittleEndian(bundle[..8]);
      if end > |bundle| then Err(ManifestExceedsBundle)
      else match c.readManifest(bundle[8..end])
        case None => Err(BadManifest)
        case Some(m) => Ok((m, bundle[end..]))
  }

  /** The sniffing decoder behind restore and verify. */
  function DecryptBackup(c: Codec, full: Bytes, passphrase: Bytes): Result<(Manifest, Bytes), Error> {
    if MAGIC <= full then
      match ParseVersionedFile(c, full)
      case Err(e) => Err(e)
      case Ok(p) =>
        match DecryptVersioned(c, p, passphrase)
        case Err(e) => Err(e)
        case Ok(snapshot) => Ok((p.header.manifest, snapshot))
    else
      match SplitHeader(c, full)
      case Err(e) => Err(e)
      case Ok((createdAt, ct)) =>
        match c.open(c.keyV1(passphrase), c.nonceV1(passphrase, createdAt), [], ct)
        case None => Err(AuthenticationFailed)
        case Some(bundle) => ParseBundle(c, bundle)
  }

  // ---- the parser accepts exactly the layout ----

  lemma {:induction false} LittleEndianExact(b: Bytes)
    ensures FromLittleEndian(b) < Pow256(|b|) && LittleEndian(FromLittleEndian(b), |b|) == b
  {
    if b != [] {
      LittleEndianExact(b[1..]);
      var n := FromLittleEndian(b[1..]);
      var v := b[0] as int + 256 * n;
      assert v % 256 == b[0] as int && v / 256 == n;
      assert b == [b[0]] + b[1..];
    }
  }

  /** Whatever parses is an assembled file of a known version, whose header reads back and
      asks for Argon2id within the documented bounds: 8 MiB to 1 GiB, 1 to 64 passes, 1 to 8
      lanes. */
  lemma ParseIsExact(c: Codec, full: Bytes)
    requires ParseVersionedFile(c, full).Ok?
    ensures var p := ParseVersionedFile(c, full).value;
            && full == Assemble(p.version, p.headerBytes, p.ciphertext)
            && (p.version == 2 || p.version == 3)
            && c.readHeader(p.headerBytes) == Some(p.header) && p.header.kdf == ARGON2ID
            && 8192 <= p.header.m <= 1048576 && 1 <= p.header.t <= 64 && 1 <= p.header.p <= 8
  {
    hide LittleEndian, FromLittleEndian;
    LittleEndianExact(full[4..6]);
    LittleEndianExact(full[6..10]);
    assert full == full[..4] + full[4..6] + full[6..10] + full[10..];
    var p := ParseVersionedFile(c, full).value;
    assert full[10..] == p.headerBytes + p.ciphertext;
  }

  // ---- round trips ----

  lemma Pow256Values()
    ensures Pow256(2) == 0x1_0000 && Pow256(4) == 0x1_0000_0000 && Pow256(8) == 0x1_0000_0000_0000_0000
  {
    assert Pow256(1) == 256;
    assert Pow256(2) == 0x1_0000;
    assert Pow256(3) == 0x100_0000;
    assert Pow256(4) == 0x1_0000_0000;
    assert Pow256(6) == 256 * (256 * Pow256(4));
    assert Pow256(8) == 256 * (256 * Pow256(6));
  }

  /** Taking an assembled file apart gives its fields back. */
  lemma AssembleFields(version: nat, header: Bytes, ct: Bytes)
    requires version < 0x1_0000 && |header| < 0x1_0000_0000
    ensures var full := Assemble(version, header, ct);
            && |full| == 10 + |header| + |ct|
            && MAGIC <= full && full[..4] == MAGIC
            && FromLittleEndian(full[4..6]) == version
            && FromLittleEndian(full[6..10]) == |header|
            && full[10..10 + |header|] == header
            && full[10 + |header|..] == ct
  {
    Pow256Values();
    LittleEndianRoundTrip(version, 2);
    LittleEndianRoundTrip(|header|, 4);
    var full := Assemble(version, header, ct);
    assert full[4..6] == LittleEndian(version, 2);
    assert full[6..10] == LittleEndian(|header|, 4);
  }

  /** "argon2id" with 8 MiB to 1 GiB, 1 to 64 passes and 1 to 8 lanes. */
  predicate AdmittedKdf(h: Header) {
    && h.kdf == [97, 114, 103, 111, 110, 50, 105, 100]
    && 8192 <= h.m <= 1048576 && 1 <= h.t <= 64 && 1 <= h.p <= 8
  }

  /** Any header that reads back is parsed out of an assembled file, or refused for its parameters. */
  lemma ParseAssembled(c: Codec, version: nat, header: Bytes, ct: Bytes)
    requires version < 0x1_0000 && |header| < 0x1_0000_0000
    ensures var r := ParseVersionedFile(c, Assemble(version, header, ct));
            && (r.Ok? <==> (version == VERSION_V2 || version == VERSION_V3) && c.readHeader(header).Some?
                           && AdmittedKdf(c.readHeader(header).value))
            && (r.Ok? ==> r.value == Parsed(version, c.readHeader(header).value, header, ct))
  {
    hide LittleEndian, FromLittleEndian, Assemble;
    AssembleFields(version, header, ct);
  }

  /** v2 and v3: decoding a backup gives back the manifest and the snapshot. */
  lemma VersionedRoundTrip(c: Codec, manifest: Manifest, snapshot: Bytes, passphrase: Bytes, createdAt: Bytes,
                           version: nat, salt: Bytes, nonce: Bytes)
    requires Ideal(c) && (version == VERSION_V2 || version == VERSION_V3) && |salt| == 16 && |nonce| == 12
    requires |c.headerJson(HeaderFor(c, manifest, createdAt, salt, nonce))| < 0x1_0000_0000
    ensures DecryptBackup(c, VersionedFile(c, manifest, snapshot, passphrase, createdAt, version, salt, nonce), passphrase)
         == Ok((manifest, snapshot))
  {
    hide ParseVersionedFile, Assemble;
    var h := HeaderFor(c, manifest, createdAt, salt, nonce);
    var header := c.headerJson(h);
    var ct := SealSnapshot(c, header, snapshot, passphrase, salt, nonce, version);
    ParseAssembled(c, version, header, ct);
    AssembleFields(version, header, ct);
  }

  /** The bytes of a v2 or v3 file: "BSBK", the version and the header length in little endian,
      the header, the ciphertext; and what its header says: "argon2id", 64 MiB, three passes,
      one lane, and the salt and nonce drawn. */
  lemma VersionedLayout(c: Codec, manifest: Manifest, snapshot: Bytes, passphrase: Bytes, createdAt: Bytes,
                        version: nat, salt: Bytes, nonce: Bytes)
    requires Ideal(c) && (version == 2 || version == 3)
    requires |c.headerJson(HeaderFor(c, manifest, createdAt, salt, nonce))| < 0x1_0000_0000
    ensures var file := VersionedFile(c, manifest, snapshot, passphrase, createdAt, version, salt, nonce);
            && |file| > 10 && file[..6] == [66, 83, 66, 75, version as byte, 0]
            && ParseVersionedFile(c, file).Ok?
            && var p := ParseVersionedFile(c, file).value;
            && file[10..] == p.headerBytes + p.ciphertext
            && p.version == version && p.header.manifest == manifest && p.header.createdAt == createdAt
            && p.header.kdf == [97, 114, 103, 111, 110, 50, 105, 100]
            && p.header.m == 65536 && p.header.t == 3 && p.header.p == 1
            && c.readBase64(p.header.salt) == Some(salt) && c.readBase64(p.header.nonce) == Some(nonce)
            && p.ciphertext == c.seal(c.argon2id(passphrase, salt, 65536, 3, 1), nonce,
                                      if version == 3 then p.headerBytes else [], snapshot)
  {
    hide ParseVersionedFile, FromLittleEndian;
    var h := HeaderFor(c, manifest, createdAt, salt, nonce);
    var header := c.headerJson(h);
    var ct := SealSnapshot(c, header, snapshot, passphrase, salt, nonce, version);
    ParseAssembled(c, version, header, ct);
    AssembleFields(version, header, ct);
    LittleTwo(version);
    var file := Assemble(version, header, ct);
    assert file[..6] == MAGIC + LittleEndian(version, 2);
    assert file[10..] == header + ct;
  }

  lemma LittleTwo(n: nat)
    requires n < 256
    ensures LittleEndian(n, 2) == [n as byte, 0]
  {
    assert LittleEndian(n / 256, 1) == [0] + LittleEndian(0, 0);
  }

  /** A timestamp line can be told from the newer formats and ends at its newline. */
  ghost predicate PlainTimestamp(c: Codec, createdAt: Bytes) {
    NEWLINE !in createdAt && !(MAGIC <= createdAt) && c.validUtf8(createdAt)
  }

  lemma BundleRoundTrip(c: Codec, manifest: Manifest, snapshot: Bytes)
    requires Ideal(c) && |c.manifestJson(manifest)| < 0x1_0000_0000_0000_0000
    ensures ParseBundle(c, Bundle(c, manifest, snapshot)) == Ok((manifest, snapshot))
  {
    var json := c.manifestJson(manifest);
    var b := Bundle(c, manifest, snapshot);
    Pow256Values();
    LittleEndianRoundTrip(|json|, 8);
    assert b[..8] == LittleEndian(|json|, 8);
    assert b[8..8 + |json|] == json;
    assert b[8 + |json|..] == snapshot;
  }

  lemma {:induction false} FirstNewlineAfter(p: Bytes, rest: Bytes)
    requires NEWLINE !in p
    ensures FirstNewline(p + [NEWLINE] + rest) == Some(|p|)
  {
    if p == [] {
      assert p + [NEWLINE] + rest == [NEWLINE] + rest;
    } else {
      FirstNewlineAfter(p[1..], rest);
      assert (p + [NEWLINE] + rest)[1..] == p[1..] + [NEWLINE] + rest;
    }
  }

  /** No v1 file looks like a newer one: the sniff is decided by the timestamp alone. */
  lemma SniffV1(createdAt: Bytes, ct: Bytes)
    ensures MAGIC <= createdAt + [NEWLINE] + ct <==> MAGIC <= createdAt
  {
    var full := createdAt + [NEWLINE] + ct;
    assert full[|createdAt|] == NEWLINE && NEWLINE !in MAGIC;
    assert |createdAt| < 4 ==> MAGIC[|createdAt|] != NEWLINE;
  }

  /** v1: decoding a backup gives back the manifest and the snapshot. */
  lemma V1RoundTrip(c: Codec, manifest: Manifest, snapshot: Bytes, passphrase: Bytes, createdAt: Bytes)
    requires Ideal(c) && PlainTimestamp(c, createdAt)
    requires |c.manifestJson(manifest)| < 0x1_0000_0000_0000_0000
    ensures DecryptBackup(c, V1File(c, Bundle(c, manifest, snapshot), passphrase, createdAt), passphrase)
         == Ok((manifest, snapshot))
  {
    hide ParseBundle, Bundle;
    var bundle := Bundle(c, manifest, snapshot);
    var ct := c.seal(c.keyV1(passphrase), c.nonceV1(passphrase, createdAt), [], bundle);
    var full := V1File(c, bundle, passphrase, createdAt);
    SniffV1(createdAt, ct);
    FirstNewlineAfter(createdAt, ct);
    assert full[..|createdAt|] == createdAt && full[|createdAt| + 1..] == ct;
    BundleRoundTrip(c, manifest, snapshot);
  }

  // ---- tampering ----

  /** A v3 file with any other header in front of its ciphertext never decrypts, under any passphrase. */
  lemma HeaderTamperFails(c: Codec, manifest: Manifest, snapshot: Bytes, passphrase: Bytes, createdAt: Bytes,
                          salt: Bytes, nonce: Bytes, header': Bytes, passphrase': Bytes)
    requires Ideal(c) && |header'| < 0x1_0000_0000
    requires header' != c.headerJson(HeaderFor(c, manifest, createdAt, salt, nonce))
    ensures var header := c.headerJson(HeaderFor(c, manifest, createdAt, salt, nonce));
            var ct := SealSnapshot(c, header, snapshot, passphrase, salt, nonce, VERSION_V3);
            DecryptBackup(c, Assemble(VERSION_V3, header', ct), passphrase').Err?
  {
    hide ParseVersionedFile, Assemble;
    var header := c.headerJson(HeaderFor(c, manifest, createdAt, salt, nonce));
    var ct := SealSnapshot(c, header, snapshot, passphrase, salt, nonce, VERSION_V3);
    ParseAssembled(c, VERSION_V3, header', ct);
    AssembleFields(VERSION_V3, header', ct);
  }

  /** A v3 file relabelled v2, to drop the binding of its header, never decrypts. */
  lemma RelabelFails(c: Codec, manifest: Manifest, snapshot: Bytes, passphrase: Bytes, createdAt: Bytes,
                     salt: Bytes, nonce: Bytes, passphrase': Bytes)
    requires Ideal(c)
    requires |c.headerJson(HeaderFor(c, manifest, createdAt, salt, nonce))| < 0x1_0000_0000
    ensures var header := c.headerJson(HeaderFor(c, manifest, createdAt, salt, nonce));
            var ct := SealSnapshot(c, header, snapshot, passphrase, salt, nonce, VERSION_V3);
            DecryptBackup(c, Assemble(VERSION_V2, header, ct), passphrase').Err?
  {
    hide ParseVersionedFile, Assemble;
    var header := c.headerJson(HeaderFor(c, manifest, createdAt, salt, nonce));
    var ct := SealSnapshot(c, header, snapshot, passphrase, salt, nonce, VERSION_V3);
    ParseAssembled(c, VERSION_V2, header, ct);
    AssembleFields(VERSION_V2, header, ct);
  }

  /** v2 does not have this protection: swapping the manifest in a v2 header goes unnoticed. */
  lemma V2ManifestSwap(c: Codec, manifest: Manifest, manifest': Manifest, snapshot: Bytes, passphrase: Bytes,
                       createdAt: Bytes, salt: Bytes, nonce: Bytes)
    requires Ideal(c) && |salt| == 16 && |nonce| == 12
    requires |c.headerJson(HeaderFor(c, manifest', createdAt, salt, nonce))| < 0x1_0000_0000
    ensures var header := c.headerJson(HeaderFor(c, manifest, createdAt, salt, nonce));
            var header' := c.headerJson(HeaderFor(c, manifest', createdAt, salt, nonce));
            var ct := SealSnapshot(c, header, snapshot, passphrase, salt, nonce, VERSION_V2);
            DecryptBackup(c, Assemble(VERSION_V2, header', ct), passphrase) == Ok((manifest', snapshot))
  {
    VersionedRoundTrip(c, manifest', snapshot, passphrase, createdAt, VERSION_V2, salt, nonce);
  }

  /** Conversely, whatever decrypts as v3 is exactly a v3 file sealed over its own header bytes. */
  lemma DecryptedV3IsAuthentic(c: Codec, full: Bytes, passphrase: Bytes)
    requires Ideal(c) && MAGIC <= full && DecryptBackup(c, full, passphrase).Ok?
    requires ParseVersionedFile(c, full).value.version == VERSION_V3
    ensures var p := ParseVersionedFile(c, full).value;
            var (manifest, snapshot) := DecryptBackup(c, full, passphrase).value;
            var salt, nonce := c.readBase64(p.header.salt).value, c.readBase64(p.header.nonce).value;
            && manifest == p.header.manifest
            && full[10 + |p.headerBytes|..]
               == c.seal(c.argon2id(passphrase, salt, p.header.m, p.header.t, p.header.p), nonce, p.headerBytes, snapshot)
  {
    hide FromLittleEndian;
  }

  // ---- the idealisation is not contradictory ----

  /** A self-delimiting copy of `b`. */
  function Quote(b: Bytes): Bytes { if b == [] then [0] else [1, b[0]] + Quote(b[1..]) }

  function Unquote(s: Bytes): Option<(Bytes, Bytes)> {
    if s == [] then None
    else if s[0] == 0 then Some(([], s[1..]))
    else if s[0] == 1 && |s| >= 2 then
      match Unquote(s[2..])
      case None => None
      case Some((b, rest)) => Some(([s[1]] + b, rest))
    else None
  }

  lemma {:induction false} UnquoteQuote(b: Bytes, rest: Bytes)
    ensures Unquote(Quote(b) + rest) == Some((b, rest))
  {
    var s := Quote(b) + rest;
    if b == [] {
      assert s[1..] == rest;
    } else {
      UnquoteQuote(b[1..], rest);
      assert s[2..] == Quote(b[1..]) + rest;
      assert b == [b[0]] + b[1..];
    }
  }

  lemma {:induction false} QuoteUnquote(s: Bytes)
    ensures Unquote(s).Some? ==> s == Quote(Unquote(s).value.0) + Unquote(s).value.1
  {
    if Unquote(s).Some? && s[0] == 1 {
      QuoteUnquote(s[2..]);
      var (b, rest) := Unquote(s[2..]).value;
      assert ([s[1]] + b)[1..] == b;
      assert s == [s[0], s[1]] + s[2..];
      assert Quote([s[1]] + b) + rest == [1, s[1]] + (Quote(b) + rest);
    } else if Unquote(s).Some? {
      assert s == [s[0]] + s[1..];
    }
  }

  /** Sealing that carries everything it is bound to. */
  function ToySeal(k: Bytes, n: Bytes, a: Bytes, m: Bytes): Bytes { Quote(k) + (Quote(n) + (Quote(a) + m)) }

  function ToyOpen(k: Bytes, n: Bytes, a: Bytes, ct: Bytes): Option<Bytes> {
    match Unquote(ct)
    case None => None
    case Some((k', r1)) =>
      match Unquote(r1)
      case None => None
      case Some((n', r2)) =>
        match Unquote(r2)
        case None => None
        case Some((a', m)) => if k' == k && n' == n && a' == a then Some(m) else None
  }

  /** There are functions with the assumed properties, so the theorems are not vacuous. */
  lemma IdealSealExists()
    ensures IdealSeal(ToySeal, ToyOpen)
  {
    forall k, n, a, m, k', n', a'
      ensures ToyOpen(k', n', a', ToySeal(k, n, a, m)) == if k' == k && n' == n && a' == a then Some(m) else None
    {
      UnquoteQuote(k, Quote(n) + (Quote(a) + m));
      UnquoteQuote(n, Quote(a) + m);
      UnquoteQuote(a, m);
    }
    forall k, n, a, ct | ToyOpen(k, n, a, ct).Some? ensures ToySeal(k, n, a, ToyOpen(k, n, a, ct).value) == ct {
      QuoteUnquote(ct);
      var r1 := Unquote(ct).value.1;
      QuoteUnquote(r1);
      QuoteUnquote(Unquote(r1).value.1);
    }
  }
}
