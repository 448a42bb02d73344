/**
 Integrity: every row's bytes are on disk and restore to content with that row's hash and sizes, and
 are shorter than it where they are flagged compressed.
 Each operation keeps it, unconditionally or under an exact, checkable condition.
 */
module Integrity {
  import opened Base
  import opened Pipeline
  import opened Cache
  import opened Store

  predicate RowIntact(w: World, keys: Keys, disk: Disk, row: Row) {
    && row.path in disk
    && row.fileSize == |disk[row.path]|
    && (var c := Restore(w.p, w.cfg.settings, keys, row.encoding, disk[row.path]);
        c.Ok? && w.p.hash(c.value) == row.hash && |c.value| == row.originalSize)
    && (row.encoding.isCompressed ==> Shrunk(w, keys, disk[row.path], row))
  }

  /** What is flagged compressed is shorter than the content: anything else is stored as it is. */
  predicate Shrunk(w: World, keys: Keys, data: Bytes, row: Row) {
    var z := Unsealed(w.p, w.cfg.settings, keys, row.encoding, data);
    z.Ok? && |z.value| < row.originalSize
  }

  ghost predicate Intact(w: World, s: State) {
    forall id :: id in s.rows ==> RowIntact(w, s.keys, s.disk, s.rows[id])
  }

  /** The content an intact row stands for. */
  function ContentOf(w: World, s: State, id: FileId): Bytes
    requires id in s.rows && RowIntact(w, s.keys, s.disk, s.rows[id])
  {
    Restore(w.p, w.cfg.settings, s.keys, s.rows[id].encoding, s.disk[s.rows[id].path]).value
  }

  lemma RestoreIsStable(w: World, keys: Keys, keys': Keys, e: Encoding, data: Bytes)
    requires KeysEvolve(keys, keys')
    requires Restore(w.p, w.cfg.settings, keys, e, data).Ok?
    ensures Restore(w.p, w.cfg.settings, keys', e, data) == Restore(w.p, w.cfg.settings, keys, e, data)
  {
  }

  // ---- Deleting ----

  /** Whatever set of rows goes, the bytes of every survivor stay. */
  lemma ReapKeepsSurvivors(s: State, gone: set<FileId>, id: FileId)
    requires id in s.rows && id !in gone && s.rows[id].path in s.disk
    ensures id in Reap(s, gone).rows && Reap(s, gone).rows[id] == s.rows[id]
    ensures s.rows[id].path in Reap(s, gone).disk
    ensures Reap(s, gone).disk[s.rows[id].path] == s.disk[s.rows[id].path]
  {
  }

  lemma ReapKeepsIntegrity(w: World, s: State, gone: set<FileId>)
    requires Intact(w, s)
    ensures Intact(w, Reap(s, gone))
  {
  }

  lemma InvalidateIsInvalidateAll(c: Backend, ids: set<FileId>, id: FileId)
    ensures Invalidate(InvalidateAll(c, ids), id) == InvalidateAll(c, ids + {id})
  {
  }

  /** One more reference-counted delete after any batch: the order of deletes never matters. */
  lemma DeleteExtendsReap(s: State, gone: set<FileId>, id: FileId)
    requires id in s.rows && id !in gone
    ensures DeleteFile(Reap(s, gone), id) == (Reap(s, gone + {id}), Ok(()))
  {
    hide Invalidate, InvalidateAll, MetaKey, ContentKey;
    var s1, s2 := Reap(s, gone), Reap(s, gone + {id});
    var path := s.rows[id].path;
    assert s1.rows - {id} == s2.rows;
    var others := OtherReferences(s1.rows, path, id);
    assert PathsOf(s1.rows) == PathsOf(s2.rows) + {path} by {
      forall p | p in PathsOf(s1.rows)
        ensures p in PathsOf(s2.rows) + {path}
      {
        var i :| i in s1.rows && s1.rows[i].path == p;
        assert i == id || i in s2.rows;
      }
      forall p | p in PathsOf(s2.rows) + {path}
        ensures p in PathsOf(s1.rows)
      {
        assert id in s1.rows;
      }
    }
    assert forall i :: i in s2.rows ==> (i in others <==> s2.rows[i].path == path);
    if others == {} {
      assert s1.disk - {path} == s2.disk;
    } else {
      var i :| i in others;
      assert i in s2.rows;
      assert s1.disk == s2.disk;
    }
    InvalidateIsInvalidateAll(s.cache, gone, id);
  }

  lemma ReapNothing(s: State)
    ensures Reap(s, {}) == s
  {
    assert s.rows - {} == s.rows;
    assert InvalidateAll(s.cache, {}) == s.cache;
    assert s.disk - (PathsOf(s.rows) - PathsOf(s.rows)) == s.disk;
  }

  lemma DeleteIsReap(s: State, id: FileId)
    requires id in s.rows
    ensures DeleteFile(s, id) == (Reap(s, {id}), Ok(()))
  {
    ReapNothing(s);
    DeleteExtendsReap(s, {}, id);
    assert {} + {id} == {id};
  }

  lemma DeleteKeepsIntegrity(w: World, s: State, id: FileId)
    requires Intact(w, s)
    ensures Intact(w, DeleteFile(s, id).0)
  {
  }

  /** The disk holds exactly the bytes some row uses. */
  ghost predicate NoLeak(s: State) {
    s.disk.Keys == PathsOf(s.rows)
  }

  /** Reference counting is exact: if disk holds precisely the referenced paths, it still does afterwards. */
  lemma ReapIsExact(s: State, gone: set<FileId>)
    requires NoLeak(s)
    ensures NoLeak(Reap(s, gone))
  {
  }

  /** The state after a sequence of `delete_file` calls. */
  function DeleteAll(s: State, ids: seq<FileId>): State
    decreases ids
  {
    if ids == [] then s else DeleteAll(DeleteFile(s, ids[0]).0, ids[1..])
  }

  /** Bytes go exactly when their last alias goes, over any sequence of deletes. */
  lemma {:induction false} DeletesCountReferencesExactly(s: State, ids: seq<FileId>)
    requires NoLeak(s)
    ensures NoLeak(DeleteAll(s, ids))
    ensures DeleteAll(s, ids).rows == s.rows - (set id | id in ids)
    decreases ids
  {
    if ids != [] {
      var s1 := DeleteFile(s, ids[0]).0;
      if ids[0] in s.rows {
        DeleteIsReap(s, ids[0]);
        ReapIsExact(s, {ids[0]});
      }
      DeletesCountReferencesExactly(s1, ids[1..]);
      assert (set id | id in ids) == {ids[0]} + (set id | id in ids[1..]);
    }
  }

  /** `delete_bucket` keeps integrity exactly when no row of another bucket has its bytes inside the removed directory. */
  lemma DeleteBucketIntegrity(w: World, s: State, bucket: string)
    requires Intact(w, s) && bucket in s.buckets
    ensures Intact(w, DeleteBucket(w, s, bucket).0)
      <==> forall id :: id in s.rows && id.bucket != bucket ==> !(BucketDir(w.cfg, bucket) <= s.rows[id].path)
  {
    var gone := RowsIn(s.rows, bucket);
    var s1, s2 := Reap(s, gone), DeleteBucket(w, s, bucket).0;
    var dir := BucketDir(w.cfg, bucket);
    ReapKeepsIntegrity(w, s, gone);
    forall id | id in s2.rows
      ensures RowIntact(w, s2.keys, s2.disk, s2.rows[id]) <==> !(dir <= s.rows[id].path)
    {
      assert RowIntact(w, s1.keys, s1.disk, s1.rows[id]);
    }
    forall id | id in s.rows && id.bucket != bucket && dir <= s.rows[id].path
      ensures !Intact(w, s2)
    {
      assert id in s2.rows;
    }
  }

  // ---- Storing ----

  /** No row that will survive the upload has its bytes at the target path or at its temporary sibling. */
  ghost predicate TargetFree(w: World, s: State, u: Upload, ch: Chance) {
    forall id :: id in s.rows && (id != u.id || !ch.saves) ==>
      s.rows[id].path != PathOf(w.cfg, u.id) && s.rows[id].path != TempPath(PathOf(w.cfg, u.id))
  }

  /** Whether an upload writes bytes of its own. */
  predicate Writes(w: World, s: State, u: Upload, ch: Chance)
    requires Possible(w, s, u, ch)
  {
    BranchOf(w, s, u, ch).Write? && EncodeUpload(w, s, u, ch).Ok?
  }

  lemma NewRowIsIntact(w: World, s: State, u: Upload, ch: Chance, disk: Disk)
    requires w.Lawful() && EncodeUpload(w, s, u, ch).Ok?
    requires var (e, bytes) := EncodeUpload(w, s, u, ch).value;
             PathOf(w.cfg, u.id) in disk && disk[PathOf(w.cfg, u.id)] == bytes
    ensures var (e, bytes) := EncodeUpload(w, s, u, ch).value;
            && RowIntact(w, s.keys, disk, NewRow(w, u, ch, e, |bytes|))
            && Restore(w.p, w.cfg.settings, s.keys, e, bytes) == Ok(u.content)
  {
    var (e, bytes) := EncodeUpload(w, s, u, ch).value;
    EncodeRestores(w.p, w.cfg.settings, s.keys, s.keys, u.opts, ch.nonce, u.content);
    assert w.cfg.settings.(compression := w.cfg.settings.compression) == w.cfg.settings;
  }

  /** An upload keeps integrity: always when it reuses or aliases bytes, and when its target is free otherwise. */
  lemma StoreKeepsIntegrity(w: World, s: State, u: Upload, ch: Chance)
    requires w.Lawful() && Intact(w, s) && Possible(w, s, u, ch)
    requires Writes(w, s, u, ch) ==> TargetFree(w, s, u, ch)
    ensures Intact(w, StoreFile(w, s, u, ch).0)
  {
    hide Encode, Restore, PathOf, TempPath, MetaKey, ContentKey;
    var s' := StoreFile(w, s, u, ch).0;
    if Writes(w, s, u, ch) && ch.saves {
      NewRowIsIntact(w, s, u, ch, s'.disk);
    }
    forall id | id in s'.rows
      ensures RowIntact(w, s'.keys, s'.disk, s'.rows[id])
    {
      if id in s.rows {
        assert RowIntact(w, s.keys, s.disk, s.rows[id]);
      }
    }
  }

  /** When the insert fails, the cleanup makes the free target exactly the condition for integrity. */
  lemma FailedInsertIntegrity(w: World, s: State, u: Upload, ch: Chance)
    requires w.Lawful() && Intact(w, s) && Possible(w, s, u, ch) && Writes(w, s, u, ch) && !ch.saves
    ensures Intact(w, StoreFile(w, s, u, ch).0) <==> TargetFree(w, s, u, ch)
  {
    var s' := StoreFile(w, s, u, ch).0;
    if TargetFree(w, s, u, ch) {
      StoreKeepsIntegrity(w, s, u, ch);
    } else {
      var id :| id in s.rows
        && (s.rows[id].path == PathOf(w.cfg, u.id) || s.rows[id].path == TempPath(PathOf(w.cfg, u.id)));
      assert id in s'.rows && s'.rows[id].path !in s'.disk;
    }
  }

  /** The row would be just as intact over these bytes: its recorded size, and its hash under its own encoding. */
  predicate Fits(w: World, keys: Keys, row: Row, bytes: Bytes) {
    RowIntact(w, keys, map[row.path := bytes], row)
  }

  /** Bytes written for an upload leave another row intact: it lives elsewhere, or they happen to fit it. */
  predicate Survives(w: World, s: State, u: Upload, ch: Chance, row: Row)
    requires Possible(w, s, u, ch) && Writes(w, s, u, ch)
  {
    var path := PathOf(w.cfg, u.id);
    if row.path == path then Fits(w, s.keys, row, EncodeUpload(w, s, u, ch).value.1) else row.path != TempPath(path)
  }

  /** A successful write keeps integrity exactly when every other row survives its bytes. */
  lemma OverwriteIntegrity(w: World, s: State, u: Upload, ch: Chance)
    requires w.Lawful() && Intact(w, s) && Possible(w, s, u, ch) && Writes(w, s, u, ch) && ch.saves
    ensures Intact(w, StoreFile(w, s, u, ch).0)
      <==> forall id :: id in s.rows && id != u.id ==> Survives(w, s, u, ch, s.rows[id])
  {
    hide Encode, Restore, MetaKey, ContentKey, PathOf, TempPath;
    var s' := StoreFile(w, s, u, ch).0;
    NewRowIsIntact(w, s, u, ch, s'.disk);
    forall id | id in s.rows && id != u.id
      ensures RowIntact(w, s'.keys, s'.disk, s'.rows[id]) <==> Survives(w, s, u, ch, s.rows[id])
    {
      assert RowIntact(w, s.keys, s.disk, s.rows[id]);
    }
    if forall id :: id in s.rows && id != u.id ==> Survives(w, s, u, ch, s.rows[id]) {
      SavedRowIsIntact(w, s, u, ch);
    } else {
      var id :| id in s.rows && id != u.id && !Survives(w, s, u, ch, s.rows[id]);
      assert id in s'.rows;
    }
  }

  lemma SavedRowIsIntact(w: World, s: State, u: Upload, ch: Chance)
    requires w.Lawful() && Possible(w, s, u, ch) && Writes(w, s, u, ch) && ch.saves
    ensures var s' := StoreFile(w, s, u, ch).0;
            u.id in s'.rows && RowIntact(w, s'.keys, s'.disk, s'.rows[u.id])
  {
    hide Encode, Restore, MetaKey, ContentKey, PathOf, TempPath;
    NewRowIsIntact(w, s, u, ch, StoreFile(w, s, u, ch).0.disk);
  }

  /** What an upload needs for every row to stay intact: nothing, unless it writes. */
  ghost predicate KeepsRows(w: World, s: State, u: Upload, ch: Chance)
    requires Possible(w, s, u, ch)
  {
    Writes(w, s, u, ch) ==>
      if ch.saves then forall id :: id in s.rows && id != u.id ==> Survives(w, s, u, ch, s.rows[id])
      else TargetFree(w, s, u, ch)
  }

  /** An upload of any kind keeps integrity exactly when it meets that need. */
  lemma UploadIntegrity(w: World, s: State, u: Upload, ch: Chance)
    requires w.Lawful() && Intact(w, s) && Possible(w, s, u, ch)
    ensures Intact(w, StoreFile(w, s, u, ch).0) <==> KeepsRows(w, s, u, ch)
  {
    hide StoreFile, Writes, Survives, TargetFree, Intact;
    if !Writes(w, s, u, ch) {
      StoreKeepsIntegrity(w, s, u, ch);
    } else if ch.saves {
      OverwriteIntegrity(w, s, u, ch);
    } else {
      FailedInsertIntegrity(w, s, u, ch);
    }
  }

  /** With deduplication on, new bytes never fit a row that is encoded like them: that row would have been aliased. */
  lemma NewBytesFitNoAlike(w: World, s: State, u: Upload, ch: Chance, id: FileId)
    requires w.Lawful() && Possible(w, s, u, ch) && Writes(w, s, u, ch) && w.cfg.dedup && id in s.rows
    ensures Fits(w, s.keys, s.rows[id], EncodeUpload(w, s, u, ch).value.1)
      ==> s.rows[id].encoding != EncodeUpload(w, s, u, ch).value.0
  {
    hide Encode, Restore;
    var bytes := EncodeUpload(w, s, u, ch).value.1;
    NewRowIsIntact(w, s, u, ch, map[PathOf(w.cfg, u.id) := bytes]);
    assert s.rows[id].hash != w.p.hash(u.content);
  }

  /** So when the other rows at the target are encoded alike, the free target is exactly the condition. */
  lemma AlikeOverwriteIntegrity(w: World, s: State, u: Upload, ch: Chance)
    requires w.Lawful() && Intact(w, s) && Possible(w, s, u, ch) && Writes(w, s, u, ch) && ch.saves && w.cfg.dedup
    requires AlikeAt(w, s, u, ch)
    ensures Intact(w, StoreFile(w, s, u, ch).0) <==> TargetFree(w, s, u, ch)
  {
    hide Encode, Restore, StoreFile, Fits, RowIntact, PathOf, TempPath;
    OverwriteIntegrity(w, s, u, ch);
    forall id | id in s.rows
      ensures Survives(w, s, u, ch, s.rows[id])
        <==> s.rows[id].path != PathOf(w.cfg, u.id) && s.rows[id].path != TempPath(PathOf(w.cfg, u.id))
    {
      NewBytesFitNoAlike(w, s, u, ch, id);
    }
  }

  /** The rows at an upload's target path are encoded as the upload will be. */
  ghost predicate AlikeAt(w: World, s: State, u: Upload, ch: Chance)
    requires Possible(w, s, u, ch) && Writes(w, s, u, ch)
  {
    forall id :: id in s.rows && s.rows[id].path == PathOf(w.cfg, u.id) ==>
      s.rows[id].encoding == EncodeUpload(w, s, u, ch).value.0
  }

  // ---- Reading and key management ----

  lemma SameBytesKeepIntegrity(w: World, s: State, s': State)
    requires Intact(w, s) && s'.disk == s.disk && KeysEvolve(s.keys, s'.keys) && s'.rows.Keys == s.rows.Keys
    requires forall id :: id in s.rows ==>
      s'.rows[id] == s.rows[id].(uuid := s'.rows[id].uuid, accessCount := s'.rows[id].accessCount)
    ensures Intact(w, s')
  {
  }

  lemma DeliverKeepsIntegrity(w: World, s: State, row: Row, raw: Bytes)
    requires Intact(w, s)
    ensures Intact(w, Deliver(w, s, row, raw).0)
  {
  }

  lemma GetKeepsIntegrity(w: World, s: State, id: FileId, now: int, evicted: set<string>)
    requires Intact(w, s)
    ensures Intact(w, GetFile(w, s, id, now, evicted).0)
  {
    hide Deliver, DeleteFile, RowIntact, MetaKey, ContentKey;
    var (s1, meta) := LoadMeta(s, id);
    SameBytesKeepIntegrity(w, s, s1);
    DeleteKeepsIntegrity(w, s1, id);
    if meta.Ok? {
      var row := meta.value;
      var s2 := s1.(cache := Evict(s1.cache, evicted));
      SameBytesKeepIntegrity(w, s, s2);
      DeleteKeepsIntegrity(w, s2, id);
      match CachedContent(s2.cache, id)
      case Some(raw) =>
        DeliverKeepsIntegrity(w, s2, row, raw);
      case None =>
        if row.path in s2.disk {
          var raw := s2.disk[row.path];
          var s3 := s2.(cache := PutContent(s2.cache, id, raw));
          SameBytesKeepIntegrity(w, s, s3);
          DeliverKeepsIntegrity(w, s3, row, raw);
        }
    }
  }
}
