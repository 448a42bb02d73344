/**
 What rows say and operations answer, column by column and error by error, besides what the plain map of
 `Runs` shows of them.
 */
module Records {
  import opened Base
  import opened Pipeline
  import opened Cache
  import opened Store
  import opened Integrity
  import opened Coherence
  import opened Runs

  /** Saving a row replaces every column but the id of a row that is there already, and touches no other row. */
  lemma SavedColumns(rows: Rows, id: FileId, row: Row)
    ensures var rows' := SaveRow(rows, id, row);
            && rows'.Keys == rows.Keys + {id}
            && rows'[id].(uuid := row.uuid) == row
            && rows'[id].uuid == (if id in rows then rows[id].uuid else row.uuid)
            && forall other :: other in rows && other != id ==> rows'[other] == rows[other]
  {
  }

  /** The type a row records: the one given, or the one it falls back on. */
  function TypeOf(given: Option<string>, fallback: string): string {
    if given.Some? then given.value else fallback
  }

  /**
   The row an upload returns. An identical upload's is the old one. An alias has another file's bytes, sizes
   and encoding, and its type unless one is given. A write has its own path, the sizes before and after
   encoding, and the general type unless one is given. New rows have the id drawn for them, the content's
   hash, the deadline asked for, and have not been read.
   */
  lemma UploadedRow(w: World, s: State, u: Upload, ch: Chance)
    requires Possible(w, s, u, ch) && StoreFile(w, s, u, ch).1.Ok?
    ensures var row := StoreFile(w, s, u, ch).1.value;
            && row.hash == w.p.hash(u.content)
            && (!BranchOf(w, s, u, ch).Reuse? ==>
                  row.uuid == ch.uuid && row.accessCount == 0 && row.expiresAt == u.opts.expiresAt)
            && match BranchOf(w, s, u, ch)
               case Reuse => u.id in s.rows && row == s.rows[u.id]
               case Alias(existing) =>
                 && row.path == existing.path && row.encoding == existing.encoding
                 && row.fileSize == existing.fileSize && row.originalSize == existing.originalSize
                 && row.contentType == TypeOf(u.contentType, existing.contentType)
               case Write =>
                 && EncodeUpload(w, s, u, ch).Ok?
                 && var (e, bytes) := EncodeUpload(w, s, u, ch).value;
                    && row.path == PathOf(w.cfg, u.id) && row.encoding == e
                    && row.fileSize == |bytes| && row.originalSize == |u.content|
                    && row.contentType == TypeOf(u.contentType, "application/octet-stream")
  {
    hide EncodeUpload, PutMeta, PutContent;
  }

  /**
   What a successful upload saves is the row it returns, but for the id of a row that was there. A failed
   one saves nothing. No other row changes.
   */
  lemma UploadSavesTheRow(w: World, s: State, u: Upload, ch: Chance)
    requires Possible(w, s, u, ch)
    ensures var (s', r) := StoreFile(w, s, u, ch);
            && (r.Err? ==> s'.rows == s.rows)
            && (r.Ok? ==>
                  && s'.rows.Keys == s.rows.Keys + {u.id}
                  && s'.rows[u.id].(uuid := r.value.uuid) == r.value
                  && s'.rows[u.id].uuid == (if u.id in s.rows then s.rows[u.id].uuid else ch.uuid)
                  && forall id :: id in s.rows && id != u.id ==> s'.rows[id] == s.rows[id])
  {
    hide EncodeUpload, PutMeta, PutContent, AtomicWrite, AliasRow, NewRow, SaveRow;
    NewRowsHaveNewIds(w, u, ch);
    if StoreFile(w, s, u, ch).1.Ok? {
      SavedColumns(s.rows, u.id, StoreFile(w, s, u, ch).1.value);
    }
  }

  lemma NewRowsHaveNewIds(w: World, u: Upload, ch: Chance)
    ensures forall existing :: AliasRow(w, u, ch, existing).uuid == ch.uuid
    ensures forall e, size :: NewRow(w, u, ch, e, size).uuid == ch.uuid
  {
  }

  /**
   What an upload does to the disk: only a write that could be encoded touches it. It takes the temporary
   sibling away, and puts the encoded bytes at the file's own path; a refused insert takes them away again.
   */
  lemma UploadWrites(w: World, s: State, u: Upload, ch: Chance)
    requires Possible(w, s, u, ch)
    ensures var s' := StoreFile(w, s, u, ch).0;
            var path := PathOf(w.cfg, u.id);
            if BranchOf(w, s, u, ch).Write? && EncodeUpload(w, s, u, ch).Ok? then
              && (forall p :: p != path && p != TempPath(path) ==>
                    (p in s'.disk <==> p in s.disk) && (p in s.disk ==> s'.disk[p] == s.disk[p]))
              && (TempPath(path) != path ==> TempPath(path) !in s'.disk)
              && (path in s'.disk <==> ch.saves)
              && (ch.saves ==> s'.disk[path] == EncodeUpload(w, s, u, ch).value.1)
              && (!ch.saves ==> s'.cache == s.cache)
            else s'.disk == s.disk && s'.cache == s.cache
  {
    hide EncodeUpload, PutMeta, PutContent, SaveRow, NewRow, AliasRow, PathOf, TempPath;
  }

  /** Which way an upload goes: without deduplication, or when no row has its hash, it writes; otherwise the row found decides. */
  lemma UploadBranch(w: World, s: State, u: Upload, ch: Chance)
    requires Possible(w, s, u, ch)
    ensures var branch := BranchOf(w, s, u, ch);
            && (branch.Write? <==> !w.cfg.dedup || forall id :: id in s.rows ==> s.rows[id].hash != w.p.hash(u.content))
            && (branch.Reuse? ==> u.id in s.rows && s.rows[u.id].hash == w.p.hash(u.content))
            && (branch.Alias? ==> exists id :: id in s.rows && id != u.id && s.rows[id] == branch.existing
                                    && s.rows[id].hash == w.p.hash(u.content))
  {
  }

  /** How uploads fail: with the error of the encoding, or because the insert is refused; the bucket is there either way. */
  lemma UploadErrors(w: World, s: State, u: Upload, ch: Chance)
    requires Possible(w, s, u, ch)
    ensures var (s', r) := StoreFile(w, s, u, ch);
            var branch, encoded := BranchOf(w, s, u, ch), EncodeUpload(w, s, u, ch);
            && s'.buckets == s.buckets + {u.id.bucket} && s'.keys == s.keys
            && (branch.Write? && encoded.Err? ==> r == Err(encoded.error))
            && (branch.Alias? && !ch.saves ==> r == Err(Database))
            && (branch.Write? && encoded.Ok? && !ch.saves ==> r == Err(Database))
            && (r.Ok? <==> branch.Reuse? || (ch.saves && (branch.Alias? || encoded.Ok?)))
  {
    hide EncodeUpload, PutMeta, PutContent, SaveRow, AtomicWrite, NewRow, AliasRow;
  }

  /** What the info request reports of a file: everything its row says is true of its object and of its bytes. */
  lemma InfoIsTrue(w: World, s: State, id: FileId, now: int)
    requires Inv(w, s) && id in s.rows && !ExpiredAt(s.rows[id], now)
    ensures var (s', r) := GetFileInfo(s, id, now);
            var o := View(w, s)[id];
            && s' == s && r.Ok?
            && r.value.originalSize == |o.content| && r.value.contentType == o.contentType && r.value.expiresAt == o.expiresAt
            && r.value.hash == w.p.hash(o.content)
            && r.value.path in s.disk && r.value.fileSize == |s.disk[r.value.path]|
            && r.value == s.rows[id]
  {
    hide Restore, Unsealed;
    assert RowIntact(w, s.keys, s.disk, s.rows[id]);
  }

  /** What is not there is not found, and a bucket that is not there is invalid; otherwise deleting and asking succeed. */
  lemma MissingThings(w: World, s: State, id: FileId, now: int, bucket: string)
    ensures DeleteFile(s, id).1 == if id in s.rows then Ok(()) else Err(NotFound)
    ensures DeleteFile(s, id).0 == s.(rows := s.rows - {id}, disk := DeleteFile(s, id).0.disk, cache := DeleteFile(s, id).0.cache)
    ensures id !in s.rows ==> DeleteFile(s, id).0 == s
    ensures id !in s.rows || ExpiredAt(s.rows[id], now) ==> GetFileInfo(s, id, now).1 == Err(NotFound)
    ensures DeleteBucket(w, s, bucket).1 == if bucket in s.buckets then Ok(()) else Err(InvalidBucket)
    ensures bucket !in s.buckets ==> DeleteBucket(w, s, bucket).0 == s
    ensures DeleteBucket(w, s, bucket).0.buckets == s.buckets - {bucket}
  {
  }

  /** A file is expired from the very moment of its deadline on when it is asked for, but swept only after it. */
  lemma Deadlines(rows: Rows, id: FileId, now: int)
    requires id in rows
    ensures ExpiredAt(rows[id], now) <==> exists t :: rows[id].expiresAt == Some(t) && t <= now
    ensures id in ListExpired(rows, now) <==> exists t :: rows[id].expiresAt == Some(t) && t < now
  {
    if rows[id].expiresAt.Some? {
      assert rows[id].expiresAt == Some(rows[id].expiresAt.value);
    }
  }

  // ---- Warming the cache ----

  /** A served read leaves the file's metadata in the cache, and its bytes too when they are at most 1 MiB. */
  lemma ReadsWarmTheCache(w: World, s: State, id: FileId, now: int)
    requires Inv(w, s) && ColonFree(id) && GetFile(w, s, id, now, {}).1.Ok?
    ensures var s' := GetFile(w, s, id, now, {}).0;
            && id in s.rows
            && CachedMeta(s'.cache, id) == (if CachedMeta(s.cache, id).Some? then CachedMeta(s.cache, id) else Some(s.rows[id]))
            && SameFile(CachedMeta(s'.cache, id).value, s.rows[id])
            && (|s.disk[s.rows[id].path]| <= 1024 * 1024 ==> CachedContent(s'.cache, id) == Some(s.disk[s.rows[id].path]))
  {
    hide MetaKey, ContentKey, DeleteFile, Decode, CachedMeta, CachedContent, PutMeta, PutContent, RowIntact;
    assert CoherentAt(s, id);
    assert Evict(s.cache, {}) == s.cache && forall c: Backend :: Evict(c, {}) == c;
    RowsHavePaths(w, s);
    if id in s.rows {
      SameFileIsReflexive(s.rows[id]);
      PutMetaView(s.cache, id, s.rows[id], id);
      var bytes := s.disk[s.rows[id].path];
      PutContentView(s.cache, id, bytes, id);
      PutContentView(PutMeta(s.cache, id, s.rows[id]), id, bytes, id);
      if CachedMeta(s.cache, id).Some? {
        SameFileFields(CachedMeta(s.cache, id).value, s.rows[id]);
      }
    }
  }

  lemma RowsHavePaths(w: World, s: State)
    requires Intact(w, s)
    ensures forall id :: id in s.rows ==> s.rows[id].path in s.disk
  {
  }

  lemma SameFileIsReflexive(row: Row)
    ensures SameFile(row, row)
  {
  }

  /** Pre-caching a file that exists puts its bytes into the cache, unless they are above 1 MiB, and tells how many they are. */
  lemma PrecacheCaches(s: State, id: FileId, row: Row)
    requires ColonFree(id)
    ensures var (s', r) := CacheFromDisk(s, id, row);
            if row.path !in s.disk then s' == s && r == Err(NotFound)
            else
              && r == Ok(|s.disk[row.path]|) && s' == s.(cache := s'.cache)
              && CachedContent(s'.cache, id)
                   == (if |s.disk[row.path]| <= 1024 * 1024 then Some(s.disk[row.path]) else CachedContent(s.cache, id))
  {
    hide MetaKey, ContentKey, CachedContent, PutContent;
    if row.path in s.disk {
      PutContentView(s.cache, id, s.disk[row.path], id);
    }
  }
}
