/**
 The managers of the service as objects that change step by step: the database, the cache, the file
 system and the storage manager on top. Every method is proved against the state functions of `Store`.
 */
module Managers {
  import opened Base
  import opened Pipeline
  import opened Cache
  import opened Store
  import opened Integrity
  import opened Crash
  import Streaming
  import Ranges

  /** database.rs: the `files` table. */
  class DatabaseManager {
    var rows: Rows

    constructor ()
      ensures rows == map[]
    {
      rows := map[];
    }

    method SaveFile(id: FileId, row: Row, accepted: bool) returns (r: Result<()>)
      modifies this
      ensures rows == (if accepted then SaveRow(old(rows), id, row) else old(rows))
      ensures r == if accepted then Ok(()) else Err(Database)
    {
      if !accepted {
        return Err(Database);
      }
      if id in rows {
        rows := rows[id := row.(uuid := rows[id].uuid)];
      } else {
        rows := rows[id := row];
      }
      r := Ok(());
    }

    method GetFileByHash(hash: string) returns (found: Option<FileId>)
      ensures FindsByHash(rows, hash, found)
    {
      if id :| id in rows && rows[id].hash == hash {
        return Some(id);
      }
      found := None;
    }

    method CountUpAccess(uuid: nat)
      modifies this
      ensures rows == UpdateAccess(old(rows), uuid)
    {
      rows := map id | id in rows ::
        if rows[id].uuid == uuid then rows[id].(accessCount := rows[id].accessCount + 1) else rows[id];
    }

    method CountReferences(path: string, id: FileId) returns (n: nat)
      ensures n == |OtherReferences(rows, path, id)|
      ensures n == 0 <==> OtherReferences(rows, path, id) == {}
      ensures n == 0 <==> forall other :: other in rows && other != id ==> rows[other].path != path
    {
      var others := set other | other in rows && other != id && rows[other].path == path;
      n := |others|;
      assert others == OtherReferences(rows, path, id);
      if n > 0 {
        assert others != {};
        var other :| other in others;
      } else {
        assert forall other :: other in rows && other != id && rows[other].path == path ==> other in others;
      }
    }

    method DeleteRow(id: FileId)
      modifies this
      ensures rows == old(rows) - {id}
    {
      rows := rows - {id};
    }

    method DeleteRows(ids: set<FileId>)
      modifies this
      ensures rows == old(rows) - ids
    {
      rows := rows - ids;
    }
  }

  function Members(keys: seq<string>): (r: set<string>)
    ensures forall k :: k in r <==> k in keys
  {
    set k | k in keys
  }

  /** cache.rs: the string-keyed backend. */
  class CacheManager {
    var backend: Backend

    constructor ()
      ensures backend == map[]
    {
      backend := map[];
    }

    method SetFileMetadata(id: FileId, row: Row)
      modifies this
      ensures backend == PutMeta(old(backend), id, row)
    {
      backend := backend["file:" + id.bucket + ":" + id.key := MetaEntry(row)];
    }

    method SetFileContent(id: FileId, content: Bytes)
      modifies this
      ensures backend == PutContent(old(backend), id, content)
    {
      if |content| > MAX_CACHE_SIZE {
        return;
      }
      backend := backend["content:" + id.bucket + ":" + id.key := ContentEntry(content)];
    }

    method InvalidateFile(id: FileId)
      modifies this
      ensures backend == Invalidate(old(backend), id)
    {
      var keys := [MetaKey(id), ContentKey(id)];
      for i := 0 to |keys|
        invariant backend == old(backend) - Members(keys[..i])
      {
        backend := backend - {keys[i]};
        assert keys[..i + 1] == keys[..i] + [keys[i]];
        assert Members(keys[..i + 1]) == Members(keys[..i]) + {keys[i]};
      }
      assert keys[..|keys|] == [MetaKey(id), ContentKey(id)];
      assert Members(keys[..|keys|]) == {MetaKey(id), ContentKey(id)};
    }

    /** Capacity or time-to-live eviction of anything. */
    method EvictSome() returns (ghost evicted: set<string>)
      modifies this
      ensures backend == Evict(old(backend), evicted)
    {
      assert {} <= backend.Keys;
      var dropped: set<string> :| dropped <= backend.Keys;
      backend := backend - dropped;
      evicted := dropped;
    }
  }

  /** storage.rs. */
  class StorageManager {
    const world: World
    const db: DatabaseManager
    const cache: CacheManager
    const fs: FileSystem
    var keys: Keys
    var buckets: set<string>

    constructor (w: World)
      ensures world == w && Snapshot() == State(map[], map[], map[], map[], {})
      ensures fresh(db) && fresh(cache) && fresh(fs)
    {
      world := w;
      db := new DatabaseManager();
      cache := new CacheManager();
      fs := new FileSystem();
      keys := map[];
      buckets := {};
    }

    function Snapshot(): State
      reads this, db, cache, fs
    {
      State(db.rows, fs.files, cache.backend, keys, buckets)
    }

    /** Compression, then encryption; `processed_content` is rebound at each stage. */
    method EncodeContent(content: Bytes, opts: StoreOptions, nonce: Nonce) returns (r: Result<(Encoding, Bytes)>)
      ensures r == Encode(world.p, world.cfg.settings, keys, opts, nonce, content)
    {
      var settings := world.cfg.settings;
      var processed := content;
      var isCompressed := false;
      if OrElse(opts.compress, settings.compression.enabled) && |content| >= settings.compression.minSize {
        var compressor := new Streaming.CompressionManager(world.p, UploadCompression(settings.compression, opts));
        var z := compressor.CompressBuffer(processed);
        if z.Ok? && |z.value| < |processed| {
          processed := z.value;
          isCompressed := true;
        }
      }
      var isEncrypted := false;
      if OrElse(opts.encrypt, settings.crypto.enabled) {
        var sealed := EncryptStage(world.p, settings.crypto, keys, opts.encryptionKeyId, nonce, processed);
        if sealed.Err? {
          return Err(sealed.error);
        }
        processed := sealed.value;
        isEncrypted := true;
      }
      var algorithm := if isEncrypted then Some(settings.crypto.algorithm) else None;
      r := Ok((Encoding(isCompressed, isEncrypted, algorithm, opts.encryptionKeyId), processed));
    }

    /** Decryption, then decompression; `content` is rebound at each stage. */
    method DecodeContent(row: Row, raw: Bytes) returns (r: Result<Bytes>)
      ensures r == Decode(world.p, world.cfg.settings, keys, row.encoding, raw)
    {
      var settings := world.cfg.settings;
      var e := row.encoding;
      var content := raw;
      if e.isEncrypted {
        var algorithm := ParseAlgorithm(OrElse(e.encryptionAlgorithm, "aes-gcm"));
        if algorithm.Err? {
          return Err(algorithm.error);
        }
        var plain: Result<Bytes>;
        if e.encryptionKeyId.Some? {
          var key := GetKey(keys, e.encryptionKeyId.value);
          if key.Err? {
            return Err(key.error);
          }
          plain := DecryptWithKey(world.p, algorithm.value, key.value, content);
        } else {
          plain := Decrypt(world.p, settings.crypto, algorithm.value, content);
        }
        if plain.Err? {
          return Err(plain.error);
        }
        content := plain.value;
      }
      if e.isCompressed {
        r := Decompress(world.p, settings.compression, content);
      } else {
        r := Ok(content);
      }
    }

    /** `store_file`. The row the hash query happened to pick is reported in `found`. */
    method StoreFile(u: Upload, uuid: nat, nonce: Nonce, saves: bool) returns (r: Result<Row>, ghost found: Option<FileId>)
      modifies this`buckets, db, cache, fs
      ensures Possible(world, old(Snapshot()), u, Chance(uuid, nonce, found, saves))
      ensures (Snapshot(), r) == Store.StoreFile(world, old(Snapshot()), u, Chance(uuid, nonce, found, saves))
    {
      hide Encode, TempPath, MetaKey, ContentKey, UpdateAccess;
      buckets := buckets + {u.id.bucket};
      var hash := world.p.hash(u.content);
      var existing := db.GetFileByHash(hash);
      found := existing;
      if world.cfg.dedup && existing.Some? {
        if existing.value == u.id {
          return Ok(db.rows[u.id]), found;
        }
        var source := db.rows[existing.value];
        var alias := Row(uuid, source.path, source.fileSize, source.originalSize,
                         OrElse(u.contentType, source.contentType), hash, source.encoding, 0, u.opts.expiresAt);
        var saved := db.SaveFile(u.id, alias, saves);
        r := if saved.Ok? then Ok(alias) else Err(saved.error);
        return;
      }
      var encoded := EncodeContent(u.content, u.opts, nonce);
      if encoded.Err? {
        return Err(encoded.error), found;
      }
      var (encoding, bytes) := encoded.value;
      var path := PathOf(world.cfg, u.id);
      fs.WriteFileAtomic(path, bytes);
      var row := Row(uuid, path, |bytes|, |u.content|, OrElse(u.contentType, "application/octet-stream"),
                     hash, encoding, 0, u.opts.expiresAt);
      var saved := db.SaveFile(u.id, row, saves);
      if saved.Err? {
        var _ := fs.Remove(path);
        return Err(saved.error), found;
      }
      cache.SetFileMetadata(u.id, row);
      cache.SetFileContent(u.id, bytes);
      r := Ok(row);
    }

    /** `delete_file`: select, count, delete and commit, unlink, invalidate. */
    method DeleteFile(id: FileId) returns (r: Result<()>)
      modifies db, cache, fs
      ensures (Snapshot(), r) == Store.DeleteFile(old(Snapshot()), id)
    {
      hide MetaKey, ContentKey;
      if id !in db.rows {
        return Err(NotFound);
      }
      var path := db.rows[id].path;
      var others := db.CountReferences(path, id);
      db.DeleteRow(id);
      if others == 0 {
        var _ := fs.Remove(path);
      }
      cache.InvalidateFile(id);
      r := Ok(());
    }

    /** `get_file`. The entries the cache drops between its two lookups are reported in `evicted`. */
    method GetFile(id: FileId, now: int) returns (r: Result<(Bytes, string)>, ghost evicted: set<string>)
      modifies db, cache, fs
      ensures (Snapshot(), r) == Store.GetFile(world, old(Snapshot()), id, now, evicted)
    {
      hide Decode, MetaKey, ContentKey, Store.DeleteFile, UpdateAccess, Evict;
      evicted := {};
      var meta := LoadRow(id);
      if meta.Err? {
        return Err(meta.error), evicted;
      }
      var row := meta.value;
      if ExpiredAt(row, now) {
        var _ := DeleteFile(id);
        return Err(NotFound), evicted;
      }
      evicted := cache.EvictSome();
      var raw: Bytes;
      var cached := CachedContent(cache.backend, id);
      if cached.Some? {
        raw := cached.value;
      } else {
        if row.path !in fs.files {
          var _ := DeleteFile(id);
          return Err(NotFound), evicted;
        }
        raw := fs.files[row.path];
        cache.SetFileContent(id, raw);
      }
      var content := DecodeContent(row, raw);
      if content.Err? {
        return Err(content.error), evicted;
      }
      db.CountUpAccess(row.uuid);
      r := Ok((content.value, row.contentType));
    }

    /** Metadata from the cache, else from the database, warming the cache. */
    method LoadRow(id: FileId) returns (r: Result<Row>)
      modifies cache
      ensures (Snapshot(), r) == LoadMeta(old(Snapshot()), id)
    {
      hide MetaKey, ContentKey;
      var cached := CachedMeta(cache.backend, id);
      if cached.Some? {
        return Ok(cached.value);
      }
      if id !in db.rows {
        return Err(NotFound);
      }
      cache.SetFileMetadata(id, db.rows[id]);
      r := Ok(db.rows[id]);
    }

    method GetFileInfo(id: FileId, now: int) returns (r: Result<Row>)
      modifies db, cache, fs
      ensures (Snapshot(), r) == Store.GetFileInfo(old(Snapshot()), id, now)
    {
      hide Store.DeleteFile;
      if id !in db.rows {
        return Err(NotFound);
      }
      if ExpiredAt(db.rows[id], now) {
        var _ := DeleteFile(id);
        return Err(NotFound);
      }
      r := Ok(db.rows[id]);
    }

    /** `get_file_range_if_plain`: open, seek, read exactly. */
    method GetFileRangeIfPlain(id: FileId, start: nat, end: nat) returns (r: Ranges.RangeAnswer)
      modifies db, cache
      ensures (Snapshot(), r) == Ranges.RangeIfPlain(old(Snapshot()), id, start, end)
    {
      hide LoadMeta, UpdateAccess;
      var meta := LoadRow(id);
      if meta.Err? {
        return Err(meta.error);
      }
      var row := meta.value;
      if row.encoding.isCompressed || row.encoding.isEncrypted {
        return Ok(None);
      }
      var total := row.fileSize;
      var last := Min(end, if total == 0 then 0 else total - 1);
      if total == 0 || start > last {
        return Ok(None);
      }
      if row.path !in fs.files || last + 1 > |fs.files[row.path]| {
        return Err(Io);
      }
      var buffer := fs.files[row.path][start..][..last - start + 1];
      assert buffer == fs.files[row.path][start..last + 1];
      db.CountUpAccess(row.uuid);
      r := Ok(Some((buffer, row.contentType, total)));
    }

    /** `get_compressed_file_range`: streamed decompression of the stored bytes. */
    method GetCompressedFileRange(id: FileId, start: nat, end: nat) returns (r: Ranges.RangeAnswer)
      modifies db, cache
      ensures (Snapshot(), r) == Ranges.CompressedRange(world, old(Snapshot()), id, start, end)
    {
      hide LoadMeta, UpdateAccess, Streaming.DecompressRange;
      var meta := LoadRow(id);
      if meta.Err? {
        return Err(meta.error);
      }
      var row := meta.value;
      if row.encoding.isEncrypted || !row.encoding.isCompressed {
        return Ok(None);
      }
      var total := row.originalSize;
      var last := Min(end, if total == 0 then 0 else total - 1);
      if total == 0 || start > last {
        return Ok(None);
      }
      if row.path !in fs.files {
        return Err(Io);
      }
      var compression := new Streaming.CompressionManager(world.p, world.cfg.settings.compression);
      var decoded := compression.ReadRange(fs.files[row.path], start, last - start + 1);
      if decoded.Err? {
        return Err(decoded.error);
      }
      if decoded.value.None? {
        return Ok(None);
      }
      db.CountUpAccess(row.uuid);
      r := Ok(Some((decoded.value.value, row.contentType, total)));
    }

    /** `sweep_expired_files`: one reference-counted delete per expired row, in any order. */
    method SweepExpiredFiles(now: int) returns (removed: nat)
      modifies db, cache, fs
      ensures Snapshot() == Reap(old(Snapshot()), ListExpired(old(db.rows), now))
      ensures removed == |ListExpired(old(db.rows), now)|
    {
      hide Reap, Store.DeleteFile;
      var expired := ListExpired(db.rows, now);
      ghost var before := Snapshot();
      ghost var done: set<FileId> := {};
      ReapNothing(before);
      removed := 0;
      var pending := expired;
      while pending != {}
        invariant done + pending == expired && done !! pending
        invariant Snapshot() == Reap(before, done) && removed == |done|
        decreases |pending|
      {
        var id :| id in pending;
        DeleteExtendsReap(before, done, id);
        var r := DeleteFile(id);
        pending := pending - {id};
        done := done + {id};
        if r.Ok? {
          removed := removed + 1;
        }
      }
      assert done == expired;
    }

    /** The loop of `delete_bucket` over the files of the bucket, whose rows are gone already. */
    method CleanUp(files: map<FileId, string>)
      requires files.Keys !! db.rows.Keys
      modifies cache, fs
      ensures fs.files == Unlinked(old(fs.files), files, files.Keys, db.rows)
      ensures cache.backend == InvalidateAll(old(cache.backend), files.Keys)
    {
      hide MetaKey, ContentKey, InvalidateAll, Invalidate, Unlinked, PathsOf, OtherReferences;
      ghost var done: set<FileId> := {};
      NothingUnlinked(fs.files, files, db.rows);
      NothingInvalidated(cache.backend);
      var pending := files.Keys;
      while pending != {}
        invariant done + pending == files.Keys && done !! pending
        invariant cache.backend == InvalidateAll(old(cache.backend), done)
        invariant fs.files == Unlinked(old(fs.files), files, done, db.rows)
        decreases |pending|
      {
        var id :| id in pending;
        var others := db.CountReferences(files[id], id);
        UnlinkOne(old(fs.files), files, done, id, db.rows);
        if others == 0 {
          var _ := fs.Remove(files[id]);
        }
        cache.InvalidateFile(id);
        InvalidateIsInvalidateAll(old(cache.backend), done, id);
        pending := pending - {id};
        done := done + {id};
      }
      assert done == files.Keys;
    }

    /** `delete_bucket`: rows cascade first, then the loop over their files, then the directory. */
    method DeleteBucket(bucket: string) returns (r: Result<()>)
      modifies this`buckets, db, cache, fs
      ensures (Snapshot(), r) == Store.DeleteBucket(world, old(Snapshot()), bucket)
    {
      hide MetaKey, ContentKey, InvalidateAll, RemoveDir, Unlinked, Reap, PathsOf;
      if bucket !in buckets {
        return Err(InvalidBucket);
      }
      ghost var before := Snapshot();
      var files := map id | id in db.rows && id.bucket == bucket :: db.rows[id].path;
      assert files.Keys == RowsIn(before.rows, bucket);
      buckets := buckets - {bucket};
      db.DeleteRows(files.Keys);
      CleanUp(files);
      BucketReaped(before, files, bucket, db.rows);
      fs.RemoveAll(BucketDir(world.cfg, bucket));
      r := Ok(());
    }
  }

  /** The full decode of `handle_file_request`, sliced when the range fits the decoded length. */
  method ServeDecoded(storage: StorageManager, id: FileId, range: Option<string>, now: int, ghost before: Ranges.Drops)
    returns (r: Ranges.Response, ghost drops: Ranges.Drops)
    modifies storage.db, storage.cache, storage.fs
    ensures drops.beforeSeek == before.beforeSeek && drops.beforeStream == before.beforeStream
    ensures (storage.Snapshot(), r) == Ranges.ServeWhole(storage.world, old(storage.Snapshot()), id, range, now, drops)
  {
    hide Store.GetFile, Ranges.ParseRange;
    ghost var beforeDecode := storage.cache.EvictSome();
    var file;
    ghost var duringDecode;
    file, duringDecode := storage.GetFile(id, now);
    drops := before.(beforeDecode := beforeDecode, duringDecode := duringDecode);
    if file.Err? {
      return Ranges.Failed(file.error), drops;
    }
    var (content, contentType) := file.value;
    if range.Some? {
      var bounds := Ranges.ParseRange(range.value, |content|);
      if bounds.Some? {
        var (first, last) := bounds.value;
        Ranges.ParseRangeIsExact(range.value, |content|);
        return Ranges.Partial(content[first..last + 1], first, last, |content|, contentType), drops;
      }
    }
    r := Ranges.Full(content, contentType);
  }

  /**
   `handle_file_request` for a download: the two fast paths in turn, then the full decode. What the cache
   drops before and within the attempts is reported in `drops`.
   */
  method HandleFileRequest(storage: StorageManager, id: FileId, range: Option<string>, now: int)
    returns (r: Ranges.Response, ghost drops: Ranges.Drops)
    modifies storage.db, storage.cache, storage.fs
    ensures (storage.Snapshot(), r) == Ranges.HandleGet(storage.world, old(storage.Snapshot()), id, range, now, drops)
  {
    hide Ranges.ServeWhole, Store.GetFileInfo, Ranges.RangeIfPlain, Ranges.CompressedRange, Ranges.ParseRange, Evict;
    drops := Ranges.Drops({}, {}, {}, {});
    if range.Some? {
      var info := storage.GetFileInfo(id, now);
      if info.Ok? {
        var total := info.value.originalSize;
        var bounds := Ranges.ParseRange(range.value, total);
        if bounds.Some? {
          var (first, last) := bounds.value;
          ghost var beforeSeek := storage.cache.EvictSome();
          drops := drops.(beforeSeek := beforeSeek);
          var plain := storage.GetFileRangeIfPlain(id, first, last);
          if plain.Ok? && plain.value.Some? {
            var (slice, contentType, size) := plain.value.value;
            return Ranges.Partial(slice, first, last, size, contentType), drops;
          }
          ghost var beforeStream := storage.cache.EvictSome();
          drops := drops.(beforeStream := beforeStream);
          var streamed := storage.GetCompressedFileRange(id, first, last);
          if streamed.Ok? && streamed.value.Some? {
            var (slice, contentType, size) := streamed.value.value;
            return Ranges.Partial(slice, first, last, size, contentType), drops;
          }
        } else if Ranges.LooksLikeByteRange(range.value) {
          return Ranges.NotSatisfiable(total), drops;
        }
      }
    }
    r, drops := ServeDecoded(storage, id, range, now, drops);
  }

  /** The disk after the files `done` of a deleted bucket were unlinked, unless a remaining row shares their bytes. */
  ghost function Unlinked(disk: Disk, files: map<FileId, string>, done: set<FileId>, rows: Rows): Disk {
    disk - ((set id | id in done && id in files :: files[id]) - PathsOf(rows))
  }

  lemma UnlinkOne(disk: Disk, files: map<FileId, string>, done: set<FileId>, id: FileId, rows: Rows)
    requires id in files && id !in rows
    ensures Unlinked(disk, files, done + {id}, rows)
      == if forall other :: other in rows && other != id ==> rows[other].path != files[id]
         then Unlinked(disk, files, done, rows) - {files[id]} else Unlinked(disk, files, done, rows)
  {
  }

  lemma NothingUnlinked(disk: Disk, files: map<FileId, string>, rows: Rows)
    ensures Unlinked(disk, files, {}, rows) == disk
  {
  }

  lemma NothingInvalidated(c: Backend)
    ensures InvalidateAll(c, {}) == c
  {
  }

  /** Cascading the rows and cleaning up their files is dropping the rows at once. */
  lemma BucketReaped(before: State, files: map<FileId, string>, bucket: string, rows: Rows)
    requires files.Keys == RowsIn(before.rows, bucket) && forall id :: id in files ==> files[id] == before.rows[id].path
    requires rows == before.rows - files.Keys
    ensures Reap(before, RowsIn(before.rows, bucket))
      == before.(rows := rows, disk := Unlinked(before.disk, files, files.Keys, rows), cache := InvalidateAll(before.cache, files.Keys))
  {
    hide InvalidateAll;
    UnlinkedAll(before, files, rows);
  }

  lemma UnlinkedAll(before: State, files: map<FileId, string>, rows: Rows)
    requires files.Keys <= before.rows.Keys && forall id :: id in files ==> files[id] == before.rows[id].path
    requires rows == before.rows - files.Keys
    ensures Unlinked(before.disk, files, files.Keys, rows) == Reap(before, files.Keys).disk
  {
    hide InvalidateAll;
    var gone := set id | id in files.Keys && id in files :: files[id];
    forall p
      ensures p in gone - PathsOf(rows) <==> p in PathsOf(before.rows) - PathsOf(rows)
    {
      if p in gone {
        var id :| id in files && files[id] == p;
        assert id in before.rows && before.rows[id].path == p;
      }
      if p in PathsOf(before.rows) && p !in PathsOf(rows) {
        var id :| id in before.rows && before.rows[id].path == p;
        assert id !in files ==> id in rows && rows[id].path == p;
      }
    }
    assert gone - PathsOf(rows) == PathsOf(before.rows) - PathsOf(rows);
  }
}
