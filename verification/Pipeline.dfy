/**
 The byte pipeline of an upload: compress, then encrypt; and its inverse on read.
 gzip, zstd, the two AEAD ciphers and the content hash are parameters with stated contracts.
 */
module Pipeline {
  import opened Base

  /** What a streaming decoder yields: the bytes it can produce, and whether it then ends cleanly. */
  datatype Stream = Stream(output: Bytes, clean: bool)

  datatype Algorithm = AesGcm | ChaCha20Poly1305

  type Nonce = n: Bytes | |n| == 12 witness seq(12, _ => 0)

  /** The external codecs. `None` from an encoder or from `open` is that library's error. */
  datatype Primitives = Primitives(
    hash: Bytes -> string,
    gzip: (Bytes, int) -> Option<Bytes>,
    gunzip: Bytes -> Stream,
    zstd: (Bytes, int) -> Option<Bytes>,
    unzstd: Bytes -> Option<Stream>,
    seal: (Algorithm, Bytes, Bytes, Bytes) -> Option<Bytes>,
    open: (Algorithm, Bytes, Bytes, Bytes) -> Option<Bytes>)
  {
    /** Each decoder undoes its encoder. */
    ghost predicate Lawful() {
      && (forall x, level ::
            gzip(x, level).Some? ==> gunzip(gzip(x, level).value) == Stream(x, true))
      && (forall x, level ::
            zstd(x, level).Some? ==> unzstd(zstd(x, level).value) == Some(Stream(x, true)))
      && (forall a, k, n, x :: |k| == 32 && |n| == 12 && seal(a, k, n, x).Some? ==>
            open(a, k, n, seal(a, k, n, x).value) == Some(x))
    }

    /** Opening never lengthens, and another key does not give the data back. */
    ghost predicate Binding() {
      && (forall a, k, n, y :: open(a, k, n, y).Some? ==> |open(a, k, n, y).value| <= |y|)
      && (forall a, k, k', n, x :: |k| == 32 && |k'| == 32 && |n| == 12 && k' != k && seal(a, k, n, x).Some? ==>
            open(a, k', n, seal(a, k, n, x).value) != Some(x))
    }
  }

  // ---- Compression (compression.rs) ----

  datatype CompressionConfig = CompressionConfig(enabled: bool, algorithm: string, level: int, minSize: nat)

  function Compress(p: Primitives, c: CompressionConfig, data: Bytes): Result<Bytes> {
    if !c.enabled || |data| < c.minSize || data == [] then Ok(data)
    else if c.algorithm == "gzip" then
      (match p.gzip(data, c.level) case Some(z) => Ok([1] + z) case None => Err(Compression))
    else if c.algorithm == "zstd" then
      (match p.zstd(data, c.level) case Some(z) => Ok([2] + z) case None => Err(Compression))
    else Err(Compression)
  }

  function Finish(s: Stream): Result<Bytes> {
    if s.clean then Ok(s.output) else Err(Compression)
  }

  function DecompressGzip(p: Primitives, data: Bytes): Result<Bytes> {
    Finish(p.gunzip(data))
  }

  function DecompressZstd(p: Primitives, data: Bytes): Result<Bytes> {
    match p.unzstd(data)
    case Some(s) => Finish(s)
    case None => Err(Compression)
  }

  function Decompress(p: Primitives, c: CompressionConfig, data: Bytes): Result<Bytes> {
    if !c.enabled || data == [] then Ok(data)
    else if data[0] == 1 then DecompressGzip(p, data[1..])
    else if data[0] == 2 then DecompressZstd(p, data[1..])
    else if c.algorithm == "gzip" then
      if |data| >= 2 && data[0] == 0x1f && data[1] == 0x8b then DecompressGzip(p, data) else Ok(data)
    else if c.algorithm == "zstd" then
      (match DecompressZstd(p, data) case Ok(x) => Ok(x) case Err(_) => Ok(data))
    else Err(Compression)
  }

  /** The stream a recognised tag byte selects: 1 is gzip, 2 is zstd. */
  function TaggedStream(p: Primitives, data: Bytes): Option<Stream>
    requires data != []
  {
    if data[0] == 1 then Some(p.gunzip(data[1..]))
    else if data[0] == 2 then p.unzstd(data[1..])
    else None
  }

  // ---- Encryption (crypto.rs, encryption_keys.rs) ----

  function AlgorithmName(a: Algorithm): string {
    match a case AesGcm => "aes-gcm" case ChaCha20Poly1305 => "chacha20poly1305"
  }

  function ParseAlgorithm(s: string): Result<Algorithm> {
    if s == "aes-gcm" then Ok(AesGcm)
    else if s == "chacha20poly1305" then Ok(ChaCha20Poly1305)
    else Err(InvalidEncryptionAlgorithm)
  }

  lemma AlgorithmNamesRoundTrip(s: string)
    ensures forall a :: ParseAlgorithm(AlgorithmName(a)) == Ok(a)
    ensures ParseAlgorithm(s).Ok? ==> AlgorithmName(ParseAlgorithm(s).value) == s
    ensures ParseAlgorithm(s) == Ok(AesGcm) <==> s == "aes-gcm"
    ensures ParseAlgorithm(s) == Ok(ChaCha20Poly1305) <==> s == "chacha20poly1305"
    ensures ParseAlgorithm(s).Err? ==> ParseAlgorithm(s).error == InvalidEncryptionAlgorithm
  {
  }

  /** The ciphers `init_cipher` sets up from the configuration. */
  datatype Crypto = Crypto(enabled: bool, algorithm: string, aesKey: Option<Bytes>, chachaKey: Option<Bytes>)
  {
    predicate WellFormed() {
      && (aesKey.Some? ==> |aesKey.value| == 32)
      && (chachaKey.Some? ==> |chachaKey.value| == 32)
    }

    function CipherKey(a: Algorithm): Option<Bytes> {
      match a case AesGcm => aesKey case ChaCha20Poly1305 => chachaKey
    }
  }

  /** Nonce-prefixed ciphertext. */
  function Seal(p: Primitives, a: Algorithm, key: Bytes, nonce: Nonce, data: Bytes): Result<Bytes> {
    match p.seal(a, key, nonce, data)
    case Some(sealed) => Ok(nonce + sealed)
    case None => Err(Encryption)
  }

  function Open(p: Primitives, a: Algorithm, key: Bytes, data: Bytes): Result<Bytes> {
    if |data| < 12 then Err(Encryption)
    else match p.open(a, key, data[..12], data[12..])
      case Some(x) => Ok(x)
      case None => Err(Encryption)
  }

  function Encrypt(p: Primitives, c: Crypto, a: Algorithm, nonce: Nonce, data: Bytes): Result<Bytes> {
    if !c.enabled then Ok(data)
    else match c.CipherKey(a)
      case Some(key) => Seal(p, a, key, nonce, data)
      case None => Err(Encryption)
  }

  function Decrypt(p: Primitives, c: Crypto, a: Algorithm, data: Bytes): Result<Bytes> {
    if !c.enabled then Ok(data)
    else match c.CipherKey(a)
      case Some(key) => Open(p, a, key, data)
      case None => Err(Encryption)
  }

  function EncryptWithKey(p: Primitives, a: Algorithm, key: Bytes, nonce: Nonce, data: Bytes): Result<Bytes> {
    if |key| != 32 then Err(Encryption) else Seal(p, a, key, nonce, data)
  }

  function DecryptWithKey(p: Primitives, a: Algorithm, key: Bytes, data: Bytes): Result<Bytes> {
    if |key| != 32 then Err(Encryption) else Open(p, a, key, data)
  }

  datatype KeyRecord = KeyRecord(data: Bytes, active: bool)

  type Keys = map<string, KeyRecord>

  /** `get_key`: only active keys are found. */
  function GetKey(keys: Keys, id: string): Result<Bytes> {
    if id in keys && keys[id].active then Ok(keys[id].data) else Err(Validation)
  }

  /** Key tables only gain keys and change activity; key bytes are never rewritten. */
  ghost predicate KeysEvolve(keys: Keys, keys': Keys) {
    forall id :: id in keys ==> id in keys' && keys'[id].data == keys[id].data
  }

  // ---- The whole pipeline (storage.rs) ----

  datatype StoreOptions = StoreOptions(
    compress: Option<bool>,
    encrypt: Option<bool>,
    expiresAt: Option<int>,
    compressionAlgorithm: Option<string>,
    compressionLevel: Option<int>,
    encryptionKeyId: Option<string>)

  /** The columns of a row that decoding depends on. */
  datatype Encoding = Encoding(
    isCompressed: bool,
    isEncrypted: bool,
    encryptionAlgorithm: Option<string>,
    encryptionKeyId: Option<string>)

  datatype Settings = Settings(compression: CompressionConfig, crypto: Crypto)

  function OrElse<T>(o: Option<T>, default: T): T {
    match o case Some(x) => x case None => default
  }

  /** The per-upload compressor: always enabled, upload options over global defaults. */
  function UploadCompression(c: CompressionConfig, opts: StoreOptions): CompressionConfig {
    CompressionConfig(true, OrElse(opts.compressionAlgorithm, c.algorithm), OrElse(opts.compressionLevel, c.level), c.minSize)
  }

  /** Compressed bytes are kept only when strictly smaller; a failing compressor means "store uncompressed". */
  function CompressStage(p: Primitives, c: CompressionConfig, opts: StoreOptions, content: Bytes): (bool, Bytes) {
    if OrElse(opts.compress, c.enabled) && |content| >= c.minSize then
      (match Compress(p, UploadCompression(c, opts), content)
       case Ok(z) => if |z| < |content| then (true, z) else (false, content)
       case Err(_) => (false, content))
    else (false, content)
  }

  function EncryptStage(p: Primitives, c: Crypto, keys: Keys, keyId: Option<string>, nonce: Nonce, data: Bytes): Result<Bytes> {
    match ParseAlgorithm(c.algorithm)
    case Err(e) => Err(e)
    case Ok(a) =>
      match keyId
      case None => Encrypt(p, c, a, nonce, data)
      case Some(id) =>
        match GetKey(keys, id)
        case Err(e) => Err(e)
        case Ok(key) => EncryptWithKey(p, a, key, nonce, data)
  }

  function Encode(p: Primitives, cfg: Settings, keys: Keys, opts: StoreOptions, nonce: Nonce, content: Bytes)
    : Result<(Encoding, Bytes)>
  {
    var (compressed, data) := CompressStage(p, cfg.compression, opts, content);
    if OrElse(opts.encrypt, cfg.crypto.enabled) then
      (match EncryptStage(p, cfg.crypto, keys, opts.encryptionKeyId, nonce, data)
       case Err(e) => Err(e)
       case Ok(sealed) => Ok((Encoding(compressed, true, Some(cfg.crypto.algorithm), opts.encryptionKeyId), sealed)))
    else Ok((Encoding(compressed, false, None, opts.encryptionKeyId), data))
  }

  /** Decoding given the outcome `key` of looking up the row's key id. */
  function DecodeWith(p: Primitives, cfg: Settings, e: Encoding, key: Result<Bytes>, data: Bytes): Result<Bytes> {
    match DecryptStage(p, cfg.crypto, e, key, data)
    case Err(err) => Err(err)
    case Ok(plain) => if e.isCompressed then Decompress(p, cfg.compression, plain) else Ok(plain)
  }

  function DecryptStage(p: Primitives, c: Crypto, e: Encoding, key: Result<Bytes>, data: Bytes): Result<Bytes> {
    if !e.isEncrypted then Ok(data)
    else match ParseAlgorithm(OrElse(e.encryptionAlgorithm, "aes-gcm"))
      case Err(err) => Err(err)
      case Ok(a) =>
        if e.encryptionKeyId.None? then Decrypt(p, c, a, data)
        else match key
          case Err(err) => Err(err)
          case Ok(k) => DecryptWithKey(p, a, k, data)
  }

  /** `decode_content`: keys must be active, compression must be globally enabled. */
  function Decode(p: Primitives, cfg: Settings, keys: Keys, e: Encoding, data: Bytes): Result<Bytes> {
    DecodeWith(p, cfg, e, ActiveKey(keys, e), data)
  }

  function ActiveKey(keys: Keys, e: Encoding): Result<Bytes> {
    if e.encryptionKeyId.Some? then GetKey(keys, e.encryptionKeyId.value) else Err(Validation)
  }

  function KeyData(keys: Keys, id: Option<string>): Result<Bytes> {
    if id.Some? && id.value in keys then Ok(keys[id.value].data) else Err(Validation)
  }

  /**
   The content a row's bytes stand for, whatever is switched off right now: decoding with
   compression enabled and every known key usable.
   */
  function Restore(p: Primitives, cfg: Settings, keys: Keys, e: Encoding, data: Bytes): Result<Bytes> {
    DecodeWith(p, cfg.(compression := cfg.compression.(enabled := true)), e, KeyData(keys, e.encryptionKeyId), data)
  }

  /** The bytes a row's compression stage left, under the sealing if there is any. */
  function Unsealed(p: Primitives, cfg: Settings, keys: Keys, e: Encoding, data: Bytes): Result<Bytes> {
    DecryptStage(p, cfg.crypto, e, KeyData(keys, e.encryptionKeyId), data)
  }

  /** What a reader can check before asking for a row's content. */
  predicate Readable(cfg: Settings, keys: Keys, e: Encoding) {
    && (e.isCompressed ==> cfg.compression.enabled)
    && (e.isEncrypted && e.encryptionKeyId.Some? ==>
          e.encryptionKeyId.value in keys && keys[e.encryptionKeyId.value].active)
  }

  /** The key the encryption stage seals under, if it seals at all. */
  function SealingKey(c: Crypto, keys: Keys, keyId: Option<string>, a: Algorithm): Option<Bytes> {
    match keyId
    case Some(id) => (match GetKey(keys, id) case Ok(key) => Some(key) case Err(_) => None)
    case None => if c.enabled then c.CipherKey(a) else None
  }

  /** Rows sealed, or left unsealed, by the configured cipher need that very cipher again; other rows need nothing of it. */
  predicate SameCipher(written: Crypto, read: Crypto, e: Encoding) {
    e.isEncrypted && e.encryptionKeyId.None? ==>
      && read.enabled == written.enabled
      && (written.enabled ==> forall a :: ParseAlgorithm(written.algorithm) == Ok(a) ==> read.CipherKey(a) == written.CipherKey(a))
  }

  // ---- What an upload's options lead to ----

  /** An upload option, or the configured default when it is absent. */
  predicate Wanted(option: Option<bool>, default: bool) {
    option == Some(true) || (option == None && default)
  }

  /** What the chosen codec makes of a content; an unknown algorithm makes nothing. */
  function Packed(p: Primitives, c: CompressionConfig, opts: StoreOptions, content: Bytes): Option<Bytes> {
    var algorithm := if opts.compressionAlgorithm.Some? then opts.compressionAlgorithm.value else c.algorithm;
    var level := if opts.compressionLevel.Some? then opts.compressionLevel.value else c.level;
    if algorithm == "gzip" then p.gzip(content, level)
    else if algorithm == "zstd" then p.zstd(content, level)
    else None
  }

  /** Compression is worth it: wanted, the content long enough, and codec output with its tag shorter than the content. */
  predicate Shrinks(p: Primitives, c: CompressionConfig, opts: StoreOptions, content: Bytes) {
    && Wanted(opts.compress, c.enabled) && |content| >= c.minSize && content != []
    && Packed(p, c, opts, content).Some? && 1 + |Packed(p, c, opts, content).value| < |content|
  }

  /** Content is stored as the tagged output of the chosen codec exactly when that is worth it, and as it is otherwise. */
  lemma CompressedExactlyWhen(p: Primitives, c: CompressionConfig, opts: StoreOptions, content: Bytes)
    ensures var gzip := (if opts.compressionAlgorithm.Some? then opts.compressionAlgorithm.value else c.algorithm) == "gzip";
            CompressStage(p, c, opts, content)
              == if Shrinks(p, c, opts, content) then (true, [if gzip then 1 else 2] + Packed(p, c, opts, content).value)
                 else (false, content)
  {
  }

  /** What a row records of its encoding: both flags exactly when they apply, the cipher only where there is one, the key id as asked. */
  lemma EncodingRecords(p: Primitives, cfg: Settings, keys: Keys, opts: StoreOptions, nonce: Nonce, content: Bytes)
    requires Encode(p, cfg, keys, opts, nonce, content).Ok?
    ensures var e := Encode(p, cfg, keys, opts, nonce, content).value.0;
            && (e.isEncrypted <==> Wanted(opts.encrypt, cfg.crypto.enabled))
            && (e.isCompressed <==> Shrinks(p, cfg.compression, opts, content))
            && e.encryptionAlgorithm == (if e.isEncrypted then Some(cfg.crypto.algorithm) else None)
            && e.encryptionKeyId == opts.encryptionKeyId
  {
    hide CompressStage, Shrinks, EncryptStage;
    CompressedExactlyWhen(p, cfg.compression, opts, content);
  }

  /** A key an upload names can be used: known, active, and 32 bytes long. */
  predicate UsableKey(keys: Keys, id: string) {
    id in keys && keys[id].active && |keys[id].data| == 32
  }

  /** When an upload cannot be encoded, and with which error: only if encryption is wanted and something it needs is missing. */
  lemma EncodeFailsExactlyWhen(p: Primitives, cfg: Settings, keys: Keys, opts: StoreOptions, nonce: Nonce, content: Bytes)
    ensures var r := Encode(p, cfg, keys, opts, nonce, content);
            var z := CompressStage(p, cfg.compression, opts, content).1;
            var a := ParseAlgorithm(cfg.crypto.algorithm);
            if !Wanted(opts.encrypt, cfg.crypto.enabled) then r.Ok?
            else if cfg.crypto.algorithm !in {"aes-gcm", "chacha20poly1305"} then r == Err(InvalidEncryptionAlgorithm)
            else match opts.encryptionKeyId
              case Some(id) =>
                if !(id in keys && keys[id].active) then r == Err(Validation)
                else if UsableKey(keys, id) && p.seal(a.value, keys[id].data, nonce, z).Some? then r.Ok? else r == Err(Encryption)
              case None =>
                if !cfg.crypto.enabled then r.Ok?
                else if cfg.crypto.CipherKey(a.value).Some? && p.seal(a.value, cfg.crypto.CipherKey(a.value).value, nonce, z).Some?
                then r.Ok? else r == Err(Encryption)
  {
    hide CompressStage;
  }

  /** Keys of another length than 32 bytes are refused both ways. */
  lemma WrongKeyLengthIsRefused(p: Primitives, a: Algorithm, key: Bytes, nonce: Nonce, data: Bytes)
    requires |key| != 32
    ensures EncryptWithKey(p, a, key, nonce, data) == Err(Encryption) && DecryptWithKey(p, a, key, data) == Err(Encryption)
  {
  }

  /**
   How decoding fails: an encrypted row whose recorded cipher is unknown, or whose key is unknown or not
   active, has its own error; everything else is the cipher's or the codec's. A row that records no cipher
   is read as AES-GCM.
   */
  lemma DecodeErrors(p: Primitives, cfg: Settings, keys: Keys, e: Encoding, data: Bytes)
    ensures var r := Decode(p, cfg, keys, e, data);
            var name := if e.encryptionAlgorithm.Some? then e.encryptionAlgorithm.value else "aes-gcm";
            && (r == Err(InvalidEncryptionAlgorithm) <==> e.isEncrypted && name !in {"aes-gcm", "chacha20poly1305"})
            && (r == Err(Validation) <==>
                  && e.isEncrypted && name in {"aes-gcm", "chacha20poly1305"} && e.encryptionKeyId.Some?
                  && !(e.encryptionKeyId.value in keys && keys[e.encryptionKeyId.value].active))
            && (r.Err? ==> r.error in {InvalidEncryptionAlgorithm, Validation, Encryption, Compression})
            && (r == Err(Encryption) ==> e.isEncrypted) && (r == Err(Compression) ==> e.isCompressed)
            && r == Decode(p, cfg, keys, e.(encryptionAlgorithm := Some(name)), data)
  {
  }

  /** Tagged data is what its codec makes of the rest: tag 1 is gzip, 2 is zstd, and a stream that breaks off is an error. */
  lemma TaggedData(p: Primitives, c: CompressionConfig, rest: Bytes)
    requires c.enabled
    ensures Decompress(p, c, [1] + rest) == if p.gunzip(rest).clean then Ok(p.gunzip(rest).output) else Err(Compression)
    ensures Decompress(p, c, [2] + rest)
      == if exists x :: p.unzstd(rest) == Some(Stream(x, true)) then Ok(p.unzstd(rest).value.output) else Err(Compression)
    ensures Decompress(p, c, []) == Ok([])
  {
    assert ([1] + rest)[1..] == rest && ([2] + rest)[1..] == rest;
    if p.unzstd(rest).Some? && p.unzstd(rest).value.clean {
      assert p.unzstd(rest) == Some(Stream(p.unzstd(rest).value.output, true));
    }
  }

  /** Compressing fails exactly when there is something to compress and the codec is unknown or fails itself. */
  lemma CompressErrors(p: Primitives, c: CompressionConfig, data: Bytes)
    ensures Compress(p, c, data).Err? <==>
      && c.enabled && data != [] && |data| >= c.minSize
      && (c.algorithm == "gzip" ==> p.gzip(data, c.level).None?) && (c.algorithm == "zstd" ==> p.zstd(data, c.level).None?)
    ensures Compress(p, c, data).Err? ==> Compress(p, c, data).error == Compression
    ensures !c.enabled || |data| < c.minSize ==> Compress(p, c, data) == Ok(data)
  {
  }

  /**
   Data without a tag, written before tags or by others: under gzip it is decompressed if it carries gzip's
   two magic bytes, under zstd if it is a complete zstd stream, and else it is left as it is.
   */
  lemma UntaggedData(p: Primitives, c: CompressionConfig, data: Bytes)
    requires c.enabled && data != [] && data[0] != 1 && data[0] != 2
    ensures c.algorithm == "gzip" && [31, 139] <= data && p.gunzip(data).clean ==> Decompress(p, c, data) == Ok(p.gunzip(data).output)
    ensures c.algorithm == "gzip" && [31, 139] <= data && !p.gunzip(data).clean ==> Decompress(p, c, data) == Err(Compression)
    ensures c.algorithm == "gzip" && !([31, 139] <= data) ==> Decompress(p, c, data) == Ok(data)
    ensures c.algorithm == "zstd" ==>
      Decompress(p, c, data) == if exists x :: p.unzstd(data) == Some(Stream(x, true)) then Ok(p.unzstd(data).value.output) else Ok(data)
    ensures c.algorithm !in {"gzip", "zstd"} ==> Decompress(p, c, data) == Err(Compression)
  {
    var magic: Bytes := [31, 139];
    assert magic <= data <==> |data| >= 2 && data[0] == 31 && data[1] == 139;
    if c.algorithm == "zstd" && p.unzstd(data).Some? && p.unzstd(data).value.clean {
      assert p.unzstd(data) == Some(Stream(p.unzstd(data).value.output, true));
    }
  }

  // ---- Properties ----

  /** A row is flagged compressed only over a recognised tag byte, and such bytes restore the content. */
  lemma CompressedIsTagged(p: Primitives, c: CompressionConfig, opts: StoreOptions, content: Bytes)
    requires p.Lawful()
    ensures var (compressed, data) := CompressStage(p, c, opts, content);
            if compressed then
              && data != [] && (data[0] == 1 || data[0] == 2) && |data| < |content|
              && TaggedStream(p, data) == Some(Stream(content, true))
              && forall c': CompressionConfig :: c'.enabled ==> Decompress(p, c', data) == Ok(content)
            else data == content
  {
  }

  /** An envelope is the 12 bytes of its nonce and then the ciphertext; anything shorter than a nonce cannot be opened. */
  lemma EnvelopeLayout(p: Primitives, a: Algorithm, key: Bytes, nonce: Nonce, data: Bytes, envelope: Bytes)
    ensures Seal(p, a, key, nonce, data) == Ok(envelope) <==>
      |envelope| >= 12 && envelope[..12] == nonce && p.seal(a, key, nonce, data) == Some(envelope[12..])
    ensures Open(p, a, key, envelope) == Ok(data) <==>
      |envelope| >= 12 && p.open(a, key, envelope[..12], envelope[12..]) == Some(data)
    ensures Seal(p, a, key, nonce, data).Err? ==> Seal(p, a, key, nonce, data).error == Encryption
    ensures Open(p, a, key, envelope).Err? ==> Open(p, a, key, envelope).error == Encryption
  {
    if p.seal(a, key, nonce, data).Some? {
      var sealed := p.seal(a, key, nonce, data).value;
      assert (nonce + sealed)[..12] == nonce && (nonce + sealed)[12..] == sealed;
    }
    assert |envelope| >= 12 ==> envelope == envelope[..12] + envelope[12..];
  }

  /** Opening undoes sealing through the nonce-prefix envelope. */
  lemma OpenSeal(p: Primitives, a: Algorithm, key: Bytes, nonce: Nonce, data: Bytes)
    requires p.Lawful() && |key| == 32
    requires Seal(p, a, key, nonce, data).Ok?
    ensures Open(p, a, key, Seal(p, a, key, nonce, data).value) == Ok(data)
  {
  }

  /** Decryption undoes the encryption stage as soon as the same key bytes are found again. */
  lemma DecryptUndoesEncrypt(p: Primitives, c: Crypto, keys: Keys, e: Encoding, nonce: Nonce, key: Result<Bytes>, data: Bytes)
    requires p.Lawful() && c.WellFormed()
    requires e.isEncrypted && e.encryptionAlgorithm == Some(c.algorithm)
    requires EncryptStage(p, c, keys, e.encryptionKeyId, nonce, data).Ok?
    requires e.encryptionKeyId.Some? ==> key == GetKey(keys, e.encryptionKeyId.value)
    ensures DecryptStage(p, c, e, key, EncryptStage(p, c, keys, e.encryptionKeyId, nonce, data).value) == Ok(data)
  {
  }

  /** What an upload writes restores to what was uploaded, under any later key table and read-side compression settings. */
  lemma EncodeRestores(p: Primitives, cfg: Settings, keys: Keys, keys': Keys, opts: StoreOptions, nonce: Nonce, content: Bytes)
    requires p.Lawful() && cfg.crypto.WellFormed() && KeysEvolve(keys, keys')
    requires Encode(p, cfg, keys, opts, nonce, content).Ok?
    ensures var (e, data) := Encode(p, cfg, keys, opts, nonce, content).value;
            && Unsealed(p, cfg, keys', e, data) == Ok(CompressStage(p, cfg.compression, opts, content).1)
            && forall c: CompressionConfig ::
                 Restore(p, cfg.(compression := c), keys', e, data) == Ok(content)
  {
    var (e, data) := Encode(p, cfg, keys, opts, nonce, content).value;
    var (compressed, z) := CompressStage(p, cfg.compression, opts, content);
    CompressedIsTagged(p, cfg.compression, opts, content);
    if e.isEncrypted {
      DecryptUndoesEncrypt(p, cfg.crypto, keys, e, nonce, KeyData(keys', e.encryptionKeyId), z);
    }
  }

  /** Whatever can be restored is what decoding returns, for every readable row. */
  lemma ReadableDecodesAsRestored(p: Primitives, cfg: Settings, keys: Keys, e: Encoding, data: Bytes)
    requires Readable(cfg, keys, e)
    ensures Decode(p, cfg, keys, e, data) == Restore(p, cfg, keys, e, data)
  {
  }

  /**
   What the encrypted flag is worth: the row's bytes are a sealed envelope over the compression stage's
   output when the upload named a key or encryption is on, and that output itself, in the clear, when the
   upload asked for encryption without a key while it is off.
   */
  lemma FlaggedMeansSealed(p: Primitives, cfg: Settings, keys: Keys, opts: StoreOptions, nonce: Nonce, content: Bytes)
    requires Encode(p, cfg, keys, opts, nonce, content).Ok? && Encode(p, cfg, keys, opts, nonce, content).value.0.isEncrypted
    ensures var data := Encode(p, cfg, keys, opts, nonce, content).value.1;
            var z := CompressStage(p, cfg.compression, opts, content).1;
            var a := ParseAlgorithm(cfg.crypto.algorithm);
            && a.Ok?
            && var key := SealingKey(cfg.crypto, keys, opts.encryptionKeyId, a.value);
               && (key.Some? <==> opts.encryptionKeyId.Some? || cfg.crypto.enabled)
               && if key.Some? then Seal(p, a.value, key.value, nonce, z) == Ok(data) else data == z
  {
  }

  /** Decrypting an upload gives its compressed bytes back exactly when the cipher, or the row's own key, is there again. */
  lemma DecryptionIsExact(p: Primitives, cfg: Settings, keys: Keys, opts: StoreOptions, nonce: Nonce, content: Bytes,
                          read: Crypto, key: Result<Bytes>)
    requires p.Lawful() && cfg.crypto.WellFormed() && read.WellFormed()
    requires Encode(p, cfg, keys, opts, nonce, content).Ok?
    requires Encode(p, cfg, keys, opts, nonce, content).value.0.isEncrypted && opts.encryptionKeyId.Some? && key.Ok? ==>
               key == GetKey(keys, opts.encryptionKeyId.value)
    requires SameCipher(cfg.crypto, read, Encode(p, cfg, keys, opts, nonce, content).value.0) || p.Binding()
    ensures var (e, data) := Encode(p, cfg, keys, opts, nonce, content).value;
            (DecryptStage(p, read, e, key, data) == Ok(CompressStage(p, cfg.compression, opts, content).1)
             <==> SameCipher(cfg.crypto, read, e) && (e.isEncrypted && e.encryptionKeyId.Some? ==> key.Ok?))
  {
    hide CompressStage;
    var (e, data) := Encode(p, cfg, keys, opts, nonce, content).value;
    var z := CompressStage(p, cfg.compression, opts, content).1;
    if e.isEncrypted && e.encryptionKeyId.None? {
      var a := ParseAlgorithm(cfg.crypto.algorithm).value;
      if cfg.crypto.enabled {
        SealedReading(p, a, cfg.crypto.CipherKey(a).value, nonce, z, read);
      } else if read.enabled {
        UnsealedReading(p, a, z, read);
      }
    }
  }

  lemma SealedReading(p: Primitives, a: Algorithm, key: Bytes, nonce: Nonce, data: Bytes, read: Crypto)
    requires p.Lawful() && |key| == 32 && read.WellFormed() && Seal(p, a, key, nonce, data).Ok?
    requires (read.enabled && read.CipherKey(a) == Some(key)) || p.Binding()
    ensures Decrypt(p, read, a, Seal(p, a, key, nonce, data).value) == Ok(data)
      <==> read.enabled && read.CipherKey(a) == Some(key)
  {
  }

  lemma UnsealedReading(p: Primitives, a: Algorithm, data: Bytes, read: Crypto)
    requires p.Binding() && read.enabled
    ensures Decrypt(p, read, a, data) != Ok(data)
  {
  }

  /** Under the wrong cipher, the decompressor is handed something else than the compressor made, and makes the content of it. */
  predicate MetByChance(p: Primitives, read: Settings, e: Encoding, z: Bytes, data: Bytes, content: Bytes) {
    var other := DecryptStage(p, read.crypto, e, Err(Validation), data);
    e.isCompressed && other.Ok? && other.value != z && Decompress(p, read.compression, other.value) == Ok(content)
  }

  /**
   The pipeline round trip with its exact condition. Reading back an upload, under any later key table,
   compression and encryption settings, returns the uploaded content if and only if compressed rows meet
   an enabled decompressor, the row's key, if it has one, is still active, and rows under the configured
   cipher meet that cipher again. Under another cipher an uncompressed row never does, and a compressed
   one only by chance.
   */
  lemma RoundTrip(p: Primitives, cfg: Settings, keys: Keys, opts: StoreOptions, nonce: Nonce, content: Bytes,
                  read: Settings, keys': Keys)
    requires p.Lawful() && cfg.crypto.WellFormed() && read.crypto.WellFormed() && KeysEvolve(keys, keys')
    requires Encode(p, cfg, keys, opts, nonce, content).Ok?
    requires SameCipher(cfg.crypto, read.crypto, Encode(p, cfg, keys, opts, nonce, content).value.0) || p.Binding()
    ensures var (e, data) := Encode(p, cfg, keys, opts, nonce, content).value;
            Decode(p, read, keys', e, data) == Ok(content) <==>
              if SameCipher(cfg.crypto, read.crypto, e) then Readable(read, keys', e)
              else MetByChance(p, read, e, CompressStage(p, cfg.compression, opts, content).1, data, content)
  {
    hide CompressStage, Decompress, SameCipher;
    var (e, data) := Encode(p, cfg, keys, opts, nonce, content).value;
    DecryptionIsExact(p, cfg, keys, opts, nonce, content, read.crypto, ActiveKey(keys', e));
    CompressedIsTagged(p, cfg.compression, opts, content);
    assert e.isCompressed == CompressStage(p, cfg.compression, opts, content).0;
    if e.isCompressed && !read.compression.enabled && SameCipher(cfg.crypto, read.crypto, e) {
      SwitchedOffDecompression(p, cfg, keys, keys', opts, nonce, content, read);
    }
  }

  /** With compression switched off, a compressed row decodes to its shorter, still tagged bytes, or not at all. */
  lemma SwitchedOffDecompression(p: Primitives, cfg: Settings, keys: Keys, keys': Keys, opts: StoreOptions, nonce: Nonce,
                                 content: Bytes, read: Settings)
    requires p.Lawful() && cfg.crypto.WellFormed() && KeysEvolve(keys, keys')
    requires Encode(p, cfg, keys, opts, nonce, content).Ok?
    requires Encode(p, cfg, keys, opts, nonce, content).value.0.isCompressed && !read.compression.enabled
    requires SameCipher(cfg.crypto, read.crypto, Encode(p, cfg, keys, opts, nonce, content).value.0)
    ensures var (e, data) := Encode(p, cfg, keys, opts, nonce, content).value;
            var r := Decode(p, read, keys', e, data);
            r.Ok? ==> r.value == CompressStage(p, cfg.compression, opts, content).1 && |r.value| < |content|
  {
  }
}
