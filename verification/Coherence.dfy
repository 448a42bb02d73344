/**
 Cache coherence and transparency: cached metadata agrees with the row on everything decoding and
 expiry use, cached content equals the bytes on disk, and so reads through the cache return what the
 rows and the disk alone would return.
 */
module Coherence {
  import opened Base
  import opened Pipeline
  import opened Cache
  import opened Store
  import opened Integrity

  /** Equal in every column but the row id and the access counter. */
  predicate SameFile(a: Row, b: Row) {
    a.(uuid := 0, accessCount := 0) == b.(uuid := 0, accessCount := 0)
  }

  predicate CoherentAt(s: State, id: FileId) {
    && (CachedMeta(s.cache, id).Some? ==>
          id in s.rows && SameFile(CachedMeta(s.cache, id).value, s.rows[id]))
    && (CachedContent(s.cache, id).Some? ==>
          id in s.rows && s.rows[id].path in s.disk && CachedContent(s.cache, id).value == s.disk[s.rows[id].path])
  }

  ghost predicate Coherent(s: State) {
    forall id :: ColonFree(id) ==> CoherentAt(s, id)
  }

  // ---- What keeps the cache coherent ----

  lemma EvictKeepsCoherence(s: State, keys: set<string>)
    requires Coherent(s)
    ensures Coherent(s.(cache := Evict(s.cache, keys)))
  {
  }

  lemma ReapKeepsCoherence(s: State, gone: set<FileId>)
    requires Coherent(s) && forall id :: id in gone ==> ColonFree(id)
    ensures Coherent(Reap(s, gone))
  {
  }

  lemma DeleteKeepsCoherence(s: State, id: FileId)
    requires Coherent(s) && ColonFree(id)
    ensures Coherent(DeleteFile(s, id).0)
  {
  }

  /** Caching what the row says. */
  lemma PutMetaKeepsCoherence(s: State, id: FileId, row: Row)
    requires Coherent(s) && ColonFree(id) && id in s.rows && SameFile(row, s.rows[id])
    ensures Coherent(s.(cache := PutMeta(s.cache, id, row)))
  {
    forall other | ColonFree(other)
      ensures CoherentAt(s.(cache := PutMeta(s.cache, id, row)), other)
    {
      assert CoherentAt(s, other);
      PutMetaView(s.cache, id, row, other);
    }
  }

  /** Caching what the disk holds. */
  lemma PutContentKeepsCoherence(s: State, id: FileId)
    requires Coherent(s) && ColonFree(id) && id in s.rows && s.rows[id].path in s.disk
    ensures Coherent(s.(cache := PutContent(s.cache, id, s.disk[s.rows[id].path])))
  {
    var bytes := s.disk[s.rows[id].path];
    forall other | ColonFree(other)
      ensures CoherentAt(s.(cache := PutContent(s.cache, id, bytes)), other)
    {
      assert CoherentAt(s, other);
      PutContentView(s.cache, id, bytes, other);
    }
  }

  lemma CountersKeepCoherence(s: State, s': State)
    requires Coherent(s) && s'.disk == s.disk && s'.cache == s.cache && s'.rows.Keys == s.rows.Keys
    requires forall id :: id in s.rows ==> SameFile(s'.rows[id], s.rows[id])
    ensures Coherent(s')
  {
  }

  lemma LoadMetaFacts(s: State, id: FileId)
    requires Coherent(s) && ColonFree(id)
    ensures var (s1, meta) := LoadMeta(s, id);
            && Coherent(s1) && s1 == s.(cache := s1.cache)
            && (id !in s.rows ==> meta == Err(NotFound))
            && (id in s.rows ==> meta.Ok? && SameFile(meta.value, s.rows[id]))
  {
    assert CoherentAt(s, id);
    if CachedMeta(s.cache, id).None? && id in s.rows {
      PutMetaKeepsCoherence(s, id, s.rows[id]);
    }
  }

  // ---- Transparency ----

  /** `get_file` without any cache: the row and the disk alone. */
  function Lookup(w: World, s: State, id: FileId, now: int): Result<(Bytes, string)> {
    if id !in s.rows || ExpiredAt(s.rows[id], now) || s.rows[id].path !in s.disk then Err(NotFound)
    else match Decode(w.p, w.cfg.settings, s.keys, s.rows[id].encoding, s.disk[s.rows[id].path])
      case Err(e) => Err(e)
      case Ok(content) => Ok((content, s.rows[id].contentType))
  }

  /**
   Reads through both caches, whatever they hold and whatever they drop half-way, return exactly what
   rows and disk alone return; afterwards the cache is coherent again, and rows and disk changed only
   by a lazy delete of an expired or broken row, or by access counters.
   */
  lemma CacheIsTransparent(w: World, s: State, id: FileId, now: int, evicted: set<string>)
    requires Coherent(s) && ColonFree(id)
    ensures var (s', r) := GetFile(w, s, id, now, evicted);
            && r == Lookup(w, s, id, now)
            && Coherent(s')
            && s'.keys == s.keys && s'.buckets == s.buckets
            && (if id in s.rows && (ExpiredAt(s.rows[id], now) || s.rows[id].path !in s.disk)
                then s'.rows == DeleteFile(s, id).0.rows && s'.disk == DeleteFile(s, id).0.disk
                else s'.disk == s.disk && s'.rows.Keys == s.rows.Keys
                     && forall i :: i in s.rows ==> SameFile(s'.rows[i], s.rows[i]))
  {
    hide Decode, MetaKey, ContentKey, LoadMeta;
    LoadMetaFacts(s, id);
    var (s1, meta) := LoadMeta(s, id);
    if meta.Ok? {
      var row := meta.value;
      SameFileFields(row, s.rows[id]);
      if ExpiredAt(row, now) {
        DeleteKeepsCoherence(s1, id);
      } else {
        var s2 := s1.(cache := Evict(s1.cache, evicted));
        EvictKeepsCoherence(s1, evicted);
        assert CoherentAt(s2, id);
        var cached := CachedContent(s2.cache, id);
        if cached.None? && row.path !in s2.disk {
          DeleteKeepsCoherence(s2, id);
        } else {
          var raw := s2.disk[row.path];
          var s3 := if cached.Some? then s2 else s2.(cache := PutContent(s2.cache, id, raw));
          if cached.None? {
            PutContentKeepsCoherence(s2, id);
          }
          CountersKeepCoherence(s3, s3.(rows := UpdateAccess(s3.rows, row.uuid)));
        }
      }
    }
  }

  /**
   A served read is counted on the row it read exactly when the metadata it went by carries that row's
   own id: uncached metadata always does. Distinct row ids then keep every other counter as it is.
   */
  lemma ReadsAreCounted(w: World, s: State, id: FileId, now: int, evicted: set<string>)
    requires Coherent(s) && ColonFree(id) && GetFile(w, s, id, now, evicted).1.Ok?
    ensures var rows' := GetFile(w, s, id, now, evicted).0.rows;
            var counted := CachedMeta(s.cache, id).Some? ==> CachedMeta(s.cache, id).value.uuid == s.rows[id].uuid;
            && id in s.rows && rows'.Keys == s.rows.Keys
            && (rows'[id].accessCount == s.rows[id].accessCount + 1 <==> counted)
            && ((forall other :: other in s.rows && s.rows[other].uuid == s.rows[id].uuid ==> other == id) && counted
                ==> rows' == s.rows[id := s.rows[id].(accessCount := s.rows[id].accessCount + 1)])
  {
    hide Decode, MetaKey, ContentKey, DeleteFile, CachedMeta, CachedContent, PutMeta, PutContent, Evict;
    assert CoherentAt(s, id);
  }

  lemma SameFileFields(a: Row, b: Row)
    requires SameFile(a, b)
    ensures a.path == b.path && a.encoding == b.encoding && a.contentType == b.contentType && a.hash == b.hash
    ensures a.fileSize == b.fileSize && a.originalSize == b.originalSize && a.expiresAt == b.expiresAt
  {
  }

  // ---- Storing ----

  /**
   When an upload leaves every cache entry telling the truth. An aliasing upload rewrites no entry, so
   the ones its file has must agree with the row it becomes; a write refreshes its own metadata, but
   its own content only up to 1 MiB, and nobody else's.
   */
  ghost predicate CacheSafe(w: World, s: State, u: Upload, ch: Chance)
    requires Possible(w, s, u, ch)
  {
    match BranchOf(w, s, u, ch)
    case Reuse => true
    case Alias(existing) => ch.saves ==> AliasSafe(w, s, u, ch, existing)
    case Write => EncodeUpload(w, s, u, ch).Ok? ==> WriteSafe(w, s, u, ch, EncodeUpload(w, s, u, ch).value.1)
  }

  predicate AliasSafe(w: World, s: State, u: Upload, ch: Chance, existing: Row) {
    var meta, content := CachedMeta(s.cache, u.id), CachedContent(s.cache, u.id);
    && (meta.None? || SameFile(meta.value, AliasRow(w, u, ch, existing)))
    && (content.None? || (existing.path in s.disk && content.value == s.disk[existing.path]))
  }

  ghost predicate WriteSafe(w: World, s: State, u: Upload, ch: Chance, bytes: Bytes) {
    && (ch.saves && |bytes| > MAX_CACHE_SIZE ==> CachedContent(s.cache, u.id) in {None, Some(bytes)})
    && forall id :: id in s.rows && ColonFree(id) && (id != u.id || !ch.saves) ==> StillTrue(w, s, u, ch, bytes, id)
  }

  /** The content cached for a row is what its path holds after the write, if its path is one the write touches. */
  predicate StillTrue(w: World, s: State, u: Upload, ch: Chance, bytes: Bytes, id: FileId)
    requires id in s.rows
  {
    var path, content := PathOf(w.cfg, u.id), CachedContent(s.cache, id);
    content.None?
      || (if s.rows[id].path == path then ch.saves && content.value == bytes else s.rows[id].path != TempPath(path))
  }

  /** An upload of any kind, to any target, keeps the cache coherent exactly when it is safe for the cache. */
  lemma StoreKeepsCoherence(w: World, s: State, u: Upload, ch: Chance)
    requires Coherent(s) && ColonFree(u.id) && Possible(w, s, u, ch)
    ensures Coherent(StoreFile(w, s, u, ch).0) <==> CacheSafe(w, s, u, ch)
  {
    hide EncodeUpload, PathOf, TempPath, MetaKey, ContentKey, CachedMeta, CachedContent, PutMeta, PutContent, SameFile;
    assert CoherentAt(s, u.id);
    var s' := StoreFile(w, s, u, ch).0;
    if Writes(w, s, u, ch) {
      WriteCoherence(w, s, u, ch);
    } else {
      UnwrittenCoherence(w, s, u, ch);
      forall id | ColonFree(id) && id != u.id
        ensures CoherentAt(s', id)
      {
        assert CoherentAt(s, id);
      }
    }
  }

  lemma UnwrittenCoherence(w: World, s: State, u: Upload, ch: Chance)
    requires Coherent(s) && ColonFree(u.id) && Possible(w, s, u, ch) && !Writes(w, s, u, ch)
    ensures CoherentAt(StoreFile(w, s, u, ch).0, u.id) <==> CacheSafe(w, s, u, ch)
  {
    hide EncodeUpload, PathOf, TempPath, MetaKey, ContentKey, CachedMeta, CachedContent, PutMeta, PutContent;
    assert CoherentAt(s, u.id);
  }

  lemma WriteCoherence(w: World, s: State, u: Upload, ch: Chance)
    requires Coherent(s) && ColonFree(u.id) && Possible(w, s, u, ch) && Writes(w, s, u, ch)
    ensures Coherent(StoreFile(w, s, u, ch).0) <==> WriteSafe(w, s, u, ch, EncodeUpload(w, s, u, ch).value.1)
  {
    hide EncodeUpload, PathOf, TempPath, MetaKey, ContentKey, CachedMeta, CachedContent, PutMeta, PutContent, StillTrue, StoreFile;
    var s' := StoreFile(w, s, u, ch).0;
    var bytes := EncodeUpload(w, s, u, ch).value.1;
    forall id | ColonFree(id)
      ensures CoherentAt(s', id) <==>
        (if id == u.id && ch.saves then |bytes| > MAX_CACHE_SIZE ==> CachedContent(s.cache, u.id) in {None, Some(bytes)}
         else id in s.rows ==> StillTrue(w, s, u, ch, bytes, id))
    {
      if ch.saves {
        SavedWriteCoherentAt(w, s, u, ch, id);
      } else {
        RefusedWriteCoherentAt(w, s, u, ch, id);
      }
    }
  }

  lemma SavedWriteCoherentAt(w: World, s: State, u: Upload, ch: Chance, id: FileId)
    requires Coherent(s) && ColonFree(u.id) && ColonFree(id) && Possible(w, s, u, ch) && Writes(w, s, u, ch) && ch.saves
    ensures var bytes := EncodeUpload(w, s, u, ch).value.1;
            CoherentAt(StoreFile(w, s, u, ch).0, id) <==>
              (if id == u.id then |bytes| > MAX_CACHE_SIZE ==> CachedContent(s.cache, u.id) in {None, Some(bytes)}
               else id in s.rows ==> StillTrue(w, s, u, ch, bytes, id))
  {
    hide EncodeUpload, PathOf, TempPath, MetaKey, ContentKey, CachedMeta, CachedContent, PutMeta, PutContent;
    assert CoherentAt(s, id);
    WriteBranchView(w, s, u, ch, id);
  }

  lemma RefusedWriteCoherentAt(w: World, s: State, u: Upload, ch: Chance, id: FileId)
    requires Coherent(s) && ColonFree(id) && Possible(w, s, u, ch) && Writes(w, s, u, ch) && !ch.saves
    ensures CoherentAt(StoreFile(w, s, u, ch).0, id)
      <==> (id in s.rows ==> StillTrue(w, s, u, ch, EncodeUpload(w, s, u, ch).value.1, id))
  {
    hide EncodeUpload, PathOf, TempPath, MetaKey, ContentKey, CachedMeta, CachedContent, SameFile;
    assert CoherentAt(s, id);
  }

  lemma WriteBranchView(w: World, s: State, u: Upload, ch: Chance, id: FileId)
    requires Possible(w, s, u, ch) && Writes(w, s, u, ch) && ch.saves && ColonFree(u.id) && ColonFree(id)
    ensures var (e, bytes) := EncodeUpload(w, s, u, ch).value;
            var s' := StoreFile(w, s, u, ch).0;
            && CachedMeta(s'.cache, id)
                 == (if id == u.id then Some(NewRow(w, u, ch, e, |bytes|)) else CachedMeta(s.cache, id))
            && CachedContent(s'.cache, id)
                 == (if id == u.id && |bytes| <= MAX_CACHE_SIZE then Some(bytes) else CachedContent(s.cache, id))
  {
    var (e, bytes) := EncodeUpload(w, s, u, ch).value;
    var row := NewRow(w, u, ch, e, |bytes|);
    PutMetaView(s.cache, u.id, row, id);
    PutContentView(PutMeta(s.cache, u.id, row), u.id, bytes, id);
  }

  /** To a free target, a write above 1 MiB is coherent exactly when an older content entry is absent or happens to be the new bytes. */
  lemma LargeWriteCoherence(w: World, s: State, u: Upload, ch: Chance)
    requires Coherent(s) && ColonFree(u.id) && Possible(w, s, u, ch) && Writes(w, s, u, ch) && ch.saves
    requires TargetFree(w, s, u, ch) && |EncodeUpload(w, s, u, ch).value.1| > MAX_CACHE_SIZE
    ensures Coherent(StoreFile(w, s, u, ch).0)
      <==> CachedContent(s.cache, u.id) in {None, Some(EncodeUpload(w, s, u, ch).value.1)}
  {
    hide EncodeUpload, PathOf, TempPath, MetaKey, ContentKey, CachedContent, Coherent, StoreFile;
    WriteCoherence(w, s, u, ch);
  }

  /**
   What readers get after an aliasing upload over a file with cached metadata, whatever else the cache
   drops: exactly what they got before it, and so never the uploaded content when that content is new.
   */
  lemma AliasOverCachedFileIsNotSeen(w: World, s: State, u: Upload, ch: Chance, now: int, evicted: set<string>)
    requires w.Lawful() && Intact(w, s) && Coherent(s) && ColonFree(u.id)
    requires Possible(w, s, u, ch) && BranchOf(w, s, u, ch).Alias? && ch.saves
    requires CachedMeta(s.cache, u.id).Some?
    ensures var r := GetFile(w, StoreFile(w, s, u, ch).0, u.id, now, evicted).1;
            && r == Lookup(w, s, u.id, now)
            && (s.rows[u.id].hash != w.p.hash(u.content) && Readable(w.cfg.settings, s.keys, s.rows[u.id].encoding) ==>
                  r.Ok? ==> r.value.0 != u.content)
  {
    hide Decode, Restore, MetaKey, ContentKey, DeleteFile, CachedContent;
    assert CoherentAt(s, u.id);
    var row := CachedMeta(s.cache, u.id).value;
    SameFileFields(row, s.rows[u.id]);
    assert RowIntact(w, s.keys, s.disk, s.rows[u.id]);
    var s2 := s.(cache := Evict(s.cache, evicted));
    EvictKeepsCoherence(s, evicted);
    assert CoherentAt(s2, u.id);
    if Readable(w.cfg.settings, s.keys, s.rows[u.id].encoding) {
      ReadableDecodesAsRestored(w.p, w.cfg.settings, s.keys, s.rows[u.id].encoding, s.disk[s.rows[u.id].path]);
    }
  }

  /**
   With the metadata dropped but the content still cached, they get the OLD bytes, decoded and labelled
   as the NEW row says; only once the content entry is dropped too, the new file.
   */
  lemma AliasOverCachedContentIsMixed(w: World, s: State, u: Upload, ch: Chance, now: int, evicted: set<string>)
    requires w.Lawful() && Intact(w, s) && Coherent(s) && ColonFree(u.id)
    requires Possible(w, s, u, ch) && BranchOf(w, s, u, ch).Alias? && ch.saves
    requires CachedMeta(s.cache, u.id).None? && CachedContent(s.cache, u.id).Some?
    ensures var row := AliasRow(w, u, ch, BranchOf(w, s, u, ch).existing);
            var raw := if ContentKey(u.id) in evicted then s.disk[row.path] else CachedContent(s.cache, u.id).value;
            GetFile(w, StoreFile(w, s, u, ch).0, u.id, now, evicted).1
              == if ExpiredAt(row, now) then Err(NotFound)
                 else match Decode(w.p, w.cfg.settings, s.keys, row.encoding, raw)
                   case Err(e) => Err(e)
                   case Ok(content) => Ok((content, row.contentType))
  {
    hide Decode, Restore, DeleteFile;
    var s1 := StoreFile(w, s, u, ch).0;
    assert RowIntact(w, s.keys, s.disk, s.rows[ch.duplicate.value]);
    KeysAreSeparate(u.id, u.id);
  }
}
