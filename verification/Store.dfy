/**
 The deduplicating object store of storage.rs as functions on its whole state: the rows of the
 `files` table, the files on disk, the cache backend, the encryption keys and the buckets.
 Clock readings, fresh row ids, nonces and the row a LIMIT 1 query picks are inputs.
 */
module Store {
  import opened Base
  import opened Pipeline
  import opened Cache

  type Rows = map<FileId, Row>

  type Disk = map<string, Bytes>

  datatype Config = Config(base: string, dedup: bool, settings: Settings)

  datatype World = World(p: Primitives, cfg: Config) {
    ghost predicate Lawful() {
      p.Lawful() && cfg.settings.crypto.WellFormed()
    }
  }

  datatype State = State(rows: Rows, disk: Disk, cache: Backend, keys: Keys, buckets: set<string>)

  // ---- Paths ----

  function BucketDir(cfg: Config, bucket: string): string {
    cfg.base + "/" + bucket + "/"
  }

  function PathOf(cfg: Config, id: FileId): string {
    BucketDir(cfg, id.bucket) + id.key
  }

  /** Index of the last occurrence of `c`, or -1. */
  function LastIndexOf(s: string, c: char): (i: int)
    ensures -1 <= i < |s|
    ensures i >= 0 ==> s[i] == c
    ensures forall k :: i < k < |s| ==> s[k] != c
  {
    if s == [] then -1
    else if s[|s| - 1] == c then |s| - 1
    else LastIndexOf(s[..|s| - 1], c)
  }

  /** Everything up to and including the last '/'. */
  function Directory(path: string): string {
    path[..LastIndexOf(path, '/') + 1]
  }

  function FileName(path: string): string {
    path[LastIndexOf(path, '/') + 1..]
  }

  /** A leading dot does not start an extension. */
  function TempName(name: string): string {
    var dot := LastIndexOf(name, '.');
    (if dot <= 0 then name else name[..dot]) + ".tmp"
  }

  /** `path.with_extension("tmp")`; ".." has no extension to replace. */
  function TempPath(path: string): string {
    if FileName(path) == ".." then path else Directory(path) + TempName(FileName(path))
  }

  // ---- Files ----

  /** Write the temporary sibling, then rename it over the target. */
  function AtomicWrite(disk: Disk, path: string, bytes: Bytes): Disk {
    (disk - {TempPath(path)})[path := bytes]
  }

  // ---- Rows (database.rs) ----

  /** Insert, or overwrite everything but the row id. */
  function SaveRow(rows: Rows, id: FileId, row: Row): Rows {
    rows[id := if id in rows then row.(uuid := rows[id].uuid) else row]
  }

  /** What `SELECT * FROM files WHERE hash_blake3 = $1 LIMIT 1` may return. */
  predicate FindsByHash(rows: Rows, hash: string, found: Option<FileId>) {
    match found
    case Some(id) => id in rows && rows[id].hash == hash
    case None => forall id :: id in rows ==> rows[id].hash != hash
  }

  function UpdateAccess(rows: Rows, uuid: nat): Rows {
    map id | id in rows ::
      if rows[id].uuid == uuid then rows[id].(accessCount := rows[id].accessCount + 1) else rows[id]
  }

  predicate ExpiredAt(row: Row, now: int) {
    row.expiresAt.Some? && row.expiresAt.value <= now
  }

  /** `expires_at IS NOT NULL AND expires_at < NOW()`. */
  function ListExpired(rows: Rows, now: int): set<FileId> {
    set id | id in rows && rows[id].expiresAt.Some? && rows[id].expiresAt.value < now
  }

  /** The other rows that point at the same bytes. */
  function OtherReferences(rows: Rows, path: string, id: FileId): set<FileId> {
    set other | other in rows && other != id && rows[other].path == path
  }

  // ---- store_file ----

  datatype Upload = Upload(id: FileId, content: Bytes, contentType: Option<string>, opts: StoreOptions)

  /** The outcomes `store_file` does not control. */
  datatype Chance = Chance(uuid: nat, nonce: Nonce, duplicate: Option<FileId>, saves: bool)

  predicate Possible(w: World, s: State, u: Upload, ch: Chance) {
    FindsByHash(s.rows, w.p.hash(u.content), ch.duplicate)
  }

  datatype Branch = Reuse | Alias(existing: Row) | Write

  /** Which way an upload goes: keep the identical file, point at existing bytes, or write its own. */
  function BranchOf(w: World, s: State, u: Upload, ch: Chance): Branch
    requires Possible(w, s, u, ch)
  {
    if !w.cfg.dedup || ch.duplicate.None? then Write
    else if ch.duplicate.value == u.id then Reuse
    else Alias(s.rows[ch.duplicate.value])
  }

  function AliasRow(w: World, u: Upload, ch: Chance, existing: Row): Row {
    existing.(uuid := ch.uuid, contentType := OrElse(u.contentType, existing.contentType),
              hash := w.p.hash(u.content), accessCount := 0, expiresAt := u.opts.expiresAt)
  }

  function NewRow(w: World, u: Upload, ch: Chance, e: Encoding, size: nat): Row {
    Row(ch.uuid, PathOf(w.cfg, u.id), size, |u.content|, OrElse(u.contentType, "application/octet-stream"),
        w.p.hash(u.content), e, 0, u.opts.expiresAt)
  }

  function EncodeUpload(w: World, s: State, u: Upload, ch: Chance): Result<(Encoding, Bytes)> {
    Encode(w.p, w.cfg.settings, s.keys, u.opts, ch.nonce, u.content)
  }

  function StoreFile(w: World, s: State, u: Upload, ch: Chance): (State, Result<Row>)
    requires Possible(w, s, u, ch)
  {
    var s0 := s.(buckets := s.buckets + {u.id.bucket});
    match BranchOf(w, s, u, ch)
    case Reuse => (s0, Ok(s.rows[u.id]))
    case Alias(existing) =>
      var row := AliasRow(w, u, ch, existing);
      if ch.saves then (s0.(rows := SaveRow(s.rows, u.id, row)), Ok(row)) else (s0, Err(Database))
    case Write =>
      match EncodeUpload(w, s, u, ch)
      case Err(e) => (s0, Err(e))
      case Ok(encoded) => WriteBranch(w, s0, u, ch, encoded.0, encoded.1)
  }

  /** Bytes to disk first, then the row; a failed insert removes the bytes, a successful one warms the cache. */
  function WriteBranch(w: World, s: State, u: Upload, ch: Chance, e: Encoding, bytes: Bytes): (State, Result<Row>) {
    var path := PathOf(w.cfg, u.id);
    var disk := AtomicWrite(s.disk, path, bytes);
    if !ch.saves then (s.(disk := disk - {path}), Err(Database))
    else
      var row := NewRow(w, u, ch, e, |bytes|);
      (s.(rows := SaveRow(s.rows, u.id, row), disk := disk,
          cache := PutContent(PutMeta(s.cache, u.id, row), u.id, bytes)),
       Ok(row))
  }

  // ---- delete_file, sweep_expired_files, delete_bucket ----

  function DeleteFile(s: State, id: FileId): (State, Result<()>) {
    if id !in s.rows then (s, Err(NotFound))
    else
      var path := s.rows[id].path;
      var disk := if OtherReferences(s.rows, path, id) == {} then s.disk - {path} else s.disk;
      (s.(rows := s.rows - {id}, disk := disk, cache := Invalidate(s.cache, id)), Ok(()))
  }

  function PathsOf(rows: Rows): set<string> {
    set id | id in rows :: rows[id].path
  }

  /** Dropping a set of rows at once: their bytes go unless a remaining row shares them. */
  function Reap(s: State, gone: set<FileId>): State {
    var rows := s.rows - gone;
    s.(rows := rows,
       disk := s.disk - (PathsOf(s.rows) - PathsOf(rows)),
       cache := InvalidateAll(s.cache, gone))
  }

  function RowsIn(rows: Rows, bucket: string): set<FileId> {
    set id | id in rows && id.bucket == bucket
  }

  /** The bucket's rows cascade away, unshared bytes go, then its whole directory. */
  function DeleteBucket(w: World, s: State, bucket: string): (State, Result<()>) {
    if bucket !in s.buckets then (s, Err(InvalidBucket))
    else
      var s1 := Reap(s, RowsIn(s.rows, bucket));
      (s1.(disk := RemoveDir(s1.disk, BucketDir(w.cfg, bucket)), buckets := s.buckets - {bucket}), Ok(()))
  }

  function RemoveDir(disk: Disk, dir: string): Disk {
    map path | path in disk && !(dir <= path) :: disk[path]
  }

  // ---- get_file, get_file_info ----

  /** The cache drops some entries. */
  function Forget(s: State, keys: set<string>): State {
    s.(cache := Evict(s.cache, keys))
  }

  /** Metadata from the cache, else from the row, warming the cache. */
  function LoadMeta(s: State, id: FileId): (State, Result<Row>) {
    match CachedMeta(s.cache, id)
    case Some(row) => (s, Ok(row))
    case None =>
      if id in s.rows then (s.(cache := PutMeta(s.cache, id, s.rows[id])), Ok(s.rows[id]))
      else (s, Err(NotFound))
  }

  function Deliver(w: World, s: State, row: Row, raw: Bytes): (State, Result<(Bytes, string)>) {
    match Decode(w.p, w.cfg.settings, s.keys, row.encoding, raw)
    case Err(e) => (s, Err(e))
    case Ok(content) => (s.(rows := UpdateAccess(s.rows, row.uuid)), Ok((content, row.contentType)))
  }

  /** `get_file`; `evicted` is what the cache drops between its metadata and content lookups. */
  function GetFile(w: World, s: State, id: FileId, now: int, evicted: set<string>): (State, Result<(Bytes, string)>) {
    var (s1, meta) := LoadMeta(s, id);
    match meta
    case Err(e) => (s1, Err(e))
    case Ok(row) =>
      if ExpiredAt(row, now) then (DeleteFile(s1, id).0, Err(NotFound))
      else
        var s2 := s1.(cache := Evict(s1.cache, evicted));
        match CachedContent(s2.cache, id)
        case Some(raw) => Deliver(w, s2, row, raw)
        case None =>
          if row.path !in s2.disk then (DeleteFile(s2, id).0, Err(NotFound))
          else
            var raw := s2.disk[row.path];
            Deliver(w, s2.(cache := PutContent(s2.cache, id, raw)), row, raw)
  }

  function GetFileInfo(s: State, id: FileId, now: int): (State, Result<Row>) {
    if id !in s.rows then (s, Err(NotFound))
    else if ExpiredAt(s.rows[id], now) then (DeleteFile(s, id).0, Err(NotFound))
    else (s, Ok(s.rows[id]))
  }

  /** `cache_file_from_disk`: pre-caching one popular row. */
  function CacheFromDisk(s: State, id: FileId, row: Row): (State, Result<nat>) {
    if row.path !in s.disk then (s, Err(NotFound))
    else (s.(cache := PutContent(s.cache, id, s.disk[row.path])), Ok(|s.disk[row.path]|))
  }
}
