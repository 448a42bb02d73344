/**
 When the disk holds exactly the bytes some row uses: what each operation needs to keep it so, and that a
 whole run keeps it exactly when every step meets its need.
 */
module Accounting {
  import opened Base
  import opened Cache
  import opened Store
  import opened Integrity
  import opened Ranges
  import opened Runs

  // ---- Uploads ----

  /** Re-pointing a row leaves no bytes behind: its old path is one of these, or another row uses it. */
  predicate LeavesNothing(rows: Rows, id: FileId, paths: set<string>) {
    id in rows ==> rows[id].path in paths || OtherReferences(rows, rows[id].path, id) != {}
  }

  /** What an upload needs: an overwritten row gives up no bytes of its own, and no row loses its bytes to the write. */
  ghost predicate LeakFreeUpload(w: World, s: State, u: Upload, ch: Chance)
    requires Possible(w, s, u, ch)
  {
    var path := PathOf(w.cfg, u.id);
    match BranchOf(w, s, u, ch)
    case Reuse => true
    case Alias(existing) => ch.saves ==> LeavesNothing(s.rows, u.id, {existing.path})
    case Write =>
      EncodeUpload(w, s, u, ch).Ok? ==>
        if ch.saves then
          && LeavesNothing(s.rows, u.id, {path, TempPath(path)})
          && (TempPath(path) == path || OtherReferences(s.rows, TempPath(path), u.id) == {})
        else TargetFree(w, s, u, ch)
  }

  lemma AliasAccounting(s: State, id: FileId, row: Row)
    requires NoLeak(s) && OtherReferences(s.rows, row.path, id) != {}
    ensures NoLeak(s.(rows := SaveRow(s.rows, id, row))) <==> LeavesNothing(s.rows, id, {row.path})
  {
    var rows' := SaveRow(s.rows, id, row);
    var twin :| twin in OtherReferences(s.rows, row.path, id);
    assert rows'[twin].path == row.path;
    PathsAfterSave(s.rows, id, row);
    if id in s.rows {
      assert s.rows[id].path in s.disk;
    }
  }

  lemma PathsAfterSave(rows: Rows, id: FileId, row: Row)
    ensures forall path :: path in PathsOf(SaveRow(rows, id, row)) <==>
      path == row.path || OtherReferences(rows, path, id) != {}
    ensures forall path :: path in PathsOf(rows) <==>
      (id in rows && rows[id].path == path) || OtherReferences(rows, path, id) != {}
  {
    var rows' := SaveRow(rows, id, row);
    assert id in rows' && rows'[id].path == row.path;
    forall path | path in PathsOf(rows') && path != row.path
      ensures OtherReferences(rows, path, id) != {}
    {
      var other :| other in rows' && rows'[other].path == path;
      assert other in OtherReferences(rows, path, id);
    }
    forall path | OtherReferences(rows, path, id) != {}
      ensures path in PathsOf(rows') && path in PathsOf(rows)
    {
      var other :| other in OtherReferences(rows, path, id);
      assert rows'[other].path == path;
    }
    forall path | path in PathsOf(rows)
      ensures (id in rows && rows[id].path == path) || OtherReferences(rows, path, id) != {}
    {
      var other :| other in rows && rows[other].path == path;
      assert other == id || other in OtherReferences(rows, path, id);
    }
  }

  lemma WriteAccounting(s: State, id: FileId, row: Row, bytes: Bytes)
    requires NoLeak(s)
    ensures NoLeak(s.(rows := SaveRow(s.rows, id, row), disk := AtomicWrite(s.disk, row.path, bytes)))
      <==> (&& LeavesNothing(s.rows, id, {row.path, TempPath(row.path)})
            && (TempPath(row.path) == row.path || OtherReferences(s.rows, TempPath(row.path), id) == {}))
  {
    hide TempPath, PathsOf, OtherReferences, SaveRow;
    var rows', disk' := SaveRow(s.rows, id, row), AtomicWrite(s.disk, row.path, bytes);
    PathsAfterSave(s.rows, id, row);
    assert forall path :: path in disk' <==> path == row.path || (path in s.disk && path != TempPath(row.path));
    assert forall path :: path in s.disk <==> path in PathsOf(s.rows);
    if id in s.rows {
      assert s.rows[id].path in PathsOf(s.rows);
    }
    assert disk'.Keys == PathsOf(rows') <==> forall path :: path in disk' <==> path in PathsOf(rows');
  }

  lemma RefusedWriteAccounting(w: World, s: State, u: Upload, ch: Chance)
    requires NoLeak(s) && Possible(w, s, u, ch) && Writes(w, s, u, ch) && !ch.saves
    ensures NoLeak(StoreFile(w, s, u, ch).0) <==> TargetFree(w, s, u, ch)
  {
    hide EncodeUpload, PathOf, TempPath;
    var s' := StoreFile(w, s, u, ch).0;
    assert s'.disk.Keys == s.disk.Keys - {PathOf(w.cfg, u.id), TempPath(PathOf(w.cfg, u.id))};
    forall id | id in s.rows
      ensures s.rows[id].path in PathsOf(s.rows)
    {
    }
  }

  /** An upload keeps the accounts exactly when it meets its need. */
  lemma UploadAccounting(w: World, s: State, u: Upload, ch: Chance)
    requires NoLeak(s) && Possible(w, s, u, ch)
    ensures NoLeak(StoreFile(w, s, u, ch).0) <==> LeakFreeUpload(w, s, u, ch)
  {
    hide EncodeUpload, PathOf, TempPath, PathsOf, SaveRow, AtomicWrite, LeavesNothing, TargetFree, PutMeta, PutContent;
    var s' := StoreFile(w, s, u, ch).0;
    match BranchOf(w, s, u, ch)
    case Reuse =>
    case Alias(existing) =>
      if ch.saves {
        assert ch.duplicate.value in OtherReferences(s.rows, existing.path, u.id);
        AliasAccounting(s, u.id, AliasRow(w, u, ch, existing));
      }
    case Write =>
      if Writes(w, s, u, ch) {
        if ch.saves {
          var (e, bytes) := EncodeUpload(w, s, u, ch).value;
          WriteAccounting(s, u.id, NewRow(w, u, ch, e, |bytes|), bytes);
        } else {
          RefusedWriteAccounting(w, s, u, ch);
        }
      }
  }

  // ---- Deletes and reads ----

  lemma DeleteAccounting(s: State, id: FileId)
    requires NoLeak(s)
    ensures NoLeak(DeleteFile(s, id).0)
  {
    hide DeleteFile, PathsOf, Reap;
    if id in s.rows {
      DeleteIsReap(s, id);
      ReapIsExact(s, {id});
    } else {
      MissingDelete(s, id);
    }
  }

  lemma MissingDelete(s: State, id: FileId)
    requires id !in s.rows
    ensures DeleteFile(s, id).0 == s
  {
  }

  /** The same paths in rows and on disk. */
  predicate SamePaths(s: State, s': State) {
    s'.rows.Keys == s.rows.Keys && s'.disk == s.disk && forall id :: id in s.rows ==> s'.rows[id].path == s.rows[id].path
  }

  lemma SamePathsAccounting(s: State, s': State)
    requires NoLeak(s) && SamePaths(s, s')
    ensures NoLeak(s')
  {
  }

  /** Reads change no path but by deleting. */
  lemma GetAccounting(w: World, s: State, id: FileId, now: int, evicted: set<string>)
    requires NoLeak(s)
    ensures NoLeak(GetFile(w, s, id, now, evicted).0)
  {
    hide Deliver, DeleteFile, MetaKey, ContentKey, PathsOf;
    var (s1, meta) := LoadMeta(s, id);
    SamePathsAccounting(s, s1);
    DeleteAccounting(s1, id);
    if meta.Ok? {
      var row := meta.value;
      var s2 := s1.(cache := Evict(s1.cache, evicted));
      SamePathsAccounting(s, s2);
      DeleteAccounting(s2, id);
      match CachedContent(s2.cache, id)
      case Some(raw) =>
        DeliverAccounting(w, s2, row, raw);
      case None =>
        if row.path in s2.disk {
          var raw := s2.disk[row.path];
          var s3 := s2.(cache := PutContent(s2.cache, id, raw));
          SamePathsAccounting(s, s3);
          DeliverAccounting(w, s3, row, raw);
        }
    }
  }

  lemma DeliverAccounting(w: World, s: State, row: Row, raw: Bytes)
    requires NoLeak(s)
    ensures NoLeak(Deliver(w, s, row, raw).0)
  {
    hide PathsOf;
    SamePathsAccounting(s, Deliver(w, s, row, raw).0);
  }

  lemma WholeAccounting(w: World, s: State, id: FileId, range: Option<string>, now: int, drops: Drops)
    requires NoLeak(s)
    ensures NoLeak(ServeWhole(w, s, id, range, now, drops).0)
  {
    hide GetFile, PathsOf, ParseRange;
    SamePathsAccounting(s, Forget(s, drops.beforeDecode));
    GetAccounting(w, Forget(s, drops.beforeDecode), id, now, drops.duringDecode);
  }

  lemma CountingKeepsPaths(s: State, s1: State, uuid: nat)
    requires SamePaths(s, s1)
    ensures SamePaths(s, s1.(rows := UpdateAccess(s1.rows, uuid)))
  {
  }

  lemma FastPathsKeepPaths(w: World, s: State, id: FileId, a: nat, b: nat, keys: set<string>)
    ensures SamePaths(s, RangeIfPlain(Forget(s, keys), id, a, b).0)
    ensures SamePaths(s, CompressedRange(w, Forget(s, keys), id, a, b).0)
  {
    hide UpdateAccess, MetaKey, ContentKey;
    var (s1, meta) := LoadMeta(Forget(s, keys), id);
    if meta.Ok? {
      CountingKeepsPaths(s, s1, meta.value.uuid);
    }
  }

  lemma DownloadAccounting(w: World, s: State, id: FileId, range: Option<string>, now: int, drops: Drops)
    requires NoLeak(s)
    ensures NoLeak(HandleGet(w, s, id, range, now, drops).0)
  {
    hide ServeWhole, ParseRange, RangeIfPlain, CompressedRange, DeleteFile, PathsOf, SamePaths, NoLeak;
    WholeAccounting(w, s, id, range, now, drops);
    DeleteAccounting(s, id);
    var s1 := GetFileInfo(s, id, now).0;
    WholeAccounting(w, s1, id, range, now, drops);
    if range.Some? && GetFileInfo(s, id, now).1.Ok? {
      var bounds := ParseRange(range.value, GetFileInfo(s, id, now).1.value.originalSize);
      if bounds.Some? {
        var (a, b) := bounds.value;
        FastPathsKeepPaths(w, s1, id, a, b, drops.beforeSeek);
        var s2 := RangeIfPlain(Forget(s1, drops.beforeSeek), id, a, b).0;
        SamePathsAccounting(s1, s2);
        FastPathsKeepPaths(w, s2, id, a, b, drops.beforeStream);
        var s3 := CompressedRange(w, Forget(s2, drops.beforeStream), id, a, b).0;
        SamePathsAccounting(s2, s3);
        WholeAccounting(w, s3, id, range, now, drops);
      }
    }
  }

  lemma DropBucketAccounting(w: World, s: State, bucket: string)
    requires NoLeak(s) && bucket in s.buckets
    ensures NoLeak(DeleteBucket(w, s, bucket).0)
      <==> forall id :: id in s.rows && id.bucket != bucket ==> !(BucketDir(w.cfg, bucket) <= s.rows[id].path)
  {
    hide Reap, InvalidateAll, BucketDir;
    var dir := BucketDir(w.cfg, bucket);
    var s1 := Reap(s, RowsIn(s.rows, bucket));
    var s2 := DeleteBucket(w, s, bucket).0;
    ReapIsExact(s, RowsIn(s.rows, bucket));
    assert s1.rows == s.rows - RowsIn(s.rows, bucket) by { ReapedRows(s, RowsIn(s.rows, bucket)); }
    forall id | id in s.rows && id.bucket != bucket
      ensures s.rows[id].path in PathsOf(s2.rows)
    {
      assert id in s2.rows;
    }
    assert forall path :: path in s2.disk <==> path in PathsOf(s2.rows) && !(dir <= path);
  }

  lemma ReapedRows(s: State, gone: set<FileId>)
    ensures Reap(s, gone).rows == s.rows - gone
  {
  }

  // ---- Steps and runs ----

  /** What an operation needs to keep the accounts: only uploads and bucket deletes need anything. */
  ghost predicate LeakFree(w: World, s: State, op: Op)
    requires op.Put? ==> Possible(w, s, op.upload, op.chance)
  {
    match op
    case Put(u, ch) => LeakFreeUpload(w, s, u, ch)
    case DropBucket(bucket) =>
      bucket in s.buckets ==>
        forall id :: id in s.rows && id.bucket != bucket ==> !(BucketDir(w.cfg, bucket) <= s.rows[id].path)
    case _ => true
  }

  lemma StepAccounting(w: World, s: State, op: Op)
    requires NoLeak(s) && (op.Put? ==> Possible(w, s, op.upload, op.chance))
    ensures NoLeak(Step(w, s, op).0) <==> LeakFree(w, s, op)
  {
    hide StoreFile, HandleGet, DeleteBucket, DeleteFile, Reap, PathsOf, LeakFreeUpload, NoLeak, BucketDir;
    match op
    case Put(u, ch) => UploadAccounting(w, s, u, ch);
    case Fetch(id, range, now, drops) => DownloadAccounting(w, s, id, range, now, drops);
    case Info(id, now) => DeleteAccounting(s, id);
    case Delete(id) => DeleteAccounting(s, id);
    case DropBucket(bucket) =>
      if bucket in s.buckets {
        DropBucketAccounting(w, s, bucket);
      } else {
        assert DeleteBucket(w, s, bucket).0 == s by { NoSuchBucket(w, s, bucket); }
      }
    case Sweep(now) => ReapIsExact(s, ListExpired(s.rows, now));
    case Precache(_) => SamePathsAccounting(s, Step(w, s, op).0);
    case DropCached(_) => SamePathsAccounting(s, Step(w, s, op).0);
    case AddKey(_, _) => SamePathsAccounting(s, Step(w, s, op).0);
    case DeactivateKey(_) => SamePathsAccounting(s, Step(w, s, op).0);
  }

  lemma NoSuchBucket(w: World, s: State, bucket: string)
    requires bucket !in s.buckets
    ensures DeleteBucket(w, s, bucket).0 == s
  {
  }

  /** At no moment of the run does the disk hold bytes that no row uses, or miss bytes that one does. */
  ghost predicate NeverLeaks(w: World, s: State, ops: seq<Op>)
    requires PossibleRun(w, s, ops)
    decreases ops
  {
    NoLeak(s) && (ops == [] || NeverLeaks(w, Step(w, s, ops[0]).0, ops[1..]))
  }

  ghost predicate LeakFreeRun(w: World, s: State, ops: seq<Op>)
    requires PossibleRun(w, s, ops)
    decreases ops
  {
    ops == [] || (LeakFree(w, s, ops[0]) && LeakFreeRun(w, Step(w, s, ops[0]).0, ops[1..]))
  }

  /**
   Over whole runs of every kind of operation, guarded or not, the disk holds exactly the bytes some row
   uses at every moment if and only if every upload and every bucket delete meets its need.
   */
  lemma {:induction false} RunAccounting(w: World, s: State, ops: seq<Op>)
    requires NoLeak(s) && PossibleRun(w, s, ops)
    ensures NeverLeaks(w, s, ops) <==> LeakFreeRun(w, s, ops)
    decreases ops
  {
    hide Step, LeakFree, NoLeak;
    if ops != [] {
      StepAccounting(w, s, ops[0]);
      var s1 := Step(w, s, ops[0]).0;
      if NoLeak(s1) {
        RunAccounting(w, s1, ops[1..]);
      }
    }
  }
}
