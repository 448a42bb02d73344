/**
 Writing files step by step, and what a crash between any two steps leaves behind. A file system
 remembers every state it went through; a crash can stop at any of them.
 */
module Crash {
  import opened Base
  import opened Pipeline
  import opened Cache
  import opened Store
  import opened Integrity
  import opened Coherence
  import opened Runs

  class FileSystem {
    var files: Disk
    /** Every content of the disk so far, one per completed system call. */
    ghost var history: seq<Disk>

    constructor ()
      ensures files == map[] && history == [files]
    {
      files := map[];
      history := [map[]];
    }

    method Create(path: string)
      modifies this
      ensures files == old(files)[path := []] && history == old(history) + [files]
    {
      files := files[path := []];
      history := history + [files];
    }

    method Append(path: string, chunk: Bytes)
      requires path in files
      modifies this
      ensures files == old(files)[path := old(files[path]) + chunk] && history == old(history) + [files]
    {
      files := files[path := files[path] + chunk];
      history := history + [files];
    }

    /** Renaming replaces the target in one step; renaming onto itself does nothing. */
    method Rename(from: string, to: string)
      requires from in files
      modifies this
      ensures files == (old(files) - {from})[to := old(files[from])] && history == old(history) + [files]
    {
      var content := files[from];
      files := (files - {from})[to := content];
      history := history + [files];
    }

    /** Unlinking; false when there was no such file. */
    method Remove(path: string) returns (existed: bool)
      modifies this
      ensures existed <==> path in old(files)
      ensures files == old(files) - {path} && history == old(history) + [files]
    {
      existed := path in files;
      files := files - {path};
      history := history + [files];
    }

    /** Removing a whole directory. */
    method RemoveAll(dir: string)
      modifies this
      ensures files == RemoveDir(old(files), dir) && history == old(history) + [files]
    {
      files := RemoveDir(files, dir);
      history := history + [files];
    }

    /** `write_file_optimized`: create, then buffered writes that reach the disk in pieces of any size. */
    method WriteFile(path: string, content: Bytes)
      modifies this
      ensures files == old(files)[path := content]
      ensures |history| > |old(history)| && history[..|old(history)|] == old(history)
      ensures forall i :: |old(history)| <= i < |history| ==> PartlyWritten(old(files), path, content, history[i])
    {
      Create(path);
      var written := 0;
      assert content[..0] == [];
      assert PartialAt(old(files), path, content, files, 0);
      while written < |content|
        invariant 0 <= written <= |content|
        invariant files == old(files)[path := content[..written]]
        invariant |history| > |old(history)| && history[..|old(history)|] == old(history)
        invariant forall i :: |old(history)| <= i < |history| ==> PartlyWritten(old(files), path, content, history[i])
      {
        var chunk: nat :| 1 <= chunk <= |content| - written;
        assert content[..written] + content[written..written + chunk] == content[..written + chunk];
        Append(path, content[written..written + chunk]);
        written := written + chunk;
        assert PartialAt(old(files), path, content, files, written);
      }
      assert content[..written] == content;
    }

    /** `write_file_atomic_optimized`: the temporary sibling, then the rename. */
    method WriteFileAtomic(path: string, content: Bytes)
      modifies this
      ensures files == AtomicWrite(old(files), path, content)
      ensures |history| > |old(history)| && history[..|old(history)|] == old(history)
      ensures forall i :: |old(history)| <= i < |history| ==> MidWrite(old(files), path, content, history[i])
    {
      var temp := TempPath(path);
      WriteFile(temp, content);
      Rename(temp, path);
      assert (old(files)[temp := content] - {temp})[path := content] == AtomicWrite(old(files), path, content);
    }
  }

  predicate PartialAt(before: Disk, path: string, content: Bytes, disk: Disk, n: nat) {
    n <= |content| && disk == before[path := content[..n]]
  }

  ghost predicate PartlyWritten(before: Disk, path: string, content: Bytes, disk: Disk) {
    exists n :: PartialAt(before, path, content, disk, n)
  }

  /** The disks an atomic write goes through. */
  ghost predicate MidWrite(before: Disk, path: string, content: Bytes, disk: Disk) {
    PartlyWritten(before, TempPath(path), content, disk) || disk == AtomicWrite(before, path, content)
  }

  // ---- Readers of the target ----

  /** A reader of the target sees what it saw before, or the new content, whole. */
  predicate WholeOrBefore(before: Disk, path: string, content: Bytes, disk: Disk) {
    if path in disk then disk[path] == content || (path in before && disk[path] == before[path])
    else path !in before
  }

  /**
   A write is atomic for every reader of its target at every crash point exactly when the target is not
   its own temporary sibling; or there is nothing to tear: empty content, or one byte over an empty file.
   */
  lemma WriteIsAtomic(before: Disk, path: string, content: Bytes)
    ensures (forall disk :: MidWrite(before, path, content, disk) ==> WholeOrBefore(before, path, content, disk))
       <==> (TempPath(path) != path || content == [] || (|content| == 1 && path in before && before[path] == []))
  {
    hide TempPath;
    if TempPath(path) == path {
      forall n: nat | n < |content|
        ensures var torn := before[path := content[..n]];
                MidWrite(before, path, content, torn)
                && (WholeOrBefore(before, path, content, torn) <==> path in before && before[path] == content[..n])
      {
        assert PartialAt(before, TempPath(path), content, before[path := content[..n]], n);
        assert |content[..n]| != |content|;
      }
      if content != [] {
        var torn := before[path := content[..0]];
        assert MidWrite(before, path, content, torn);
        if |content| > 1 {
          var torn1 := before[path := content[..1]];
          assert MidWrite(before, path, content, torn1);
          assert |content[..0]| != |content[..1]|;
        }
      }
    }
  }

  // ---- Rows at every crash point ----

  /** While an upload's bytes are on their way to a free target, every row keeps its bytes and the cache stays coherent. */
  lemma MidWriteIsHarmless(w: World, s: State, u: Upload, ch: Chance, content: Bytes, disk: Disk)
    requires Inv(w, s) && TargetFree(w, s, u, ch.(saves := false))
    requires MidWrite(s.disk, PathOf(w.cfg, u.id), content, disk)
    ensures Inv(w, s.(disk := disk)) && View(w, s.(disk := disk)) == View(w, s)
  {
    hide Restore, PathOf, TempPath, CachedMeta, CachedContent;
    var s' := s.(disk := disk);
    forall id | id in s.rows
      ensures RowIntact(w, s'.keys, s'.disk, s'.rows[id]) && ContentOf(w, s', id) == ContentOf(w, s, id)
    {
      assert RowIntact(w, s.keys, s.disk, s.rows[id]);
    }
    forall id | ColonFree(id)
      ensures CoherentAt(s', id)
    {
      assert CoherentAt(s, id);
    }
  }

  /** The points at which an upload that writes its own bytes can stop. */
  datatype Stage = OnDisk(disk: Disk) | RowSaved | MetaCached | ContentCached

  ghost predicate Reachable(w: World, s: State, u: Upload, ch: Chance, stage: Stage)
    requires Possible(w, s, u, ch) && Writes(w, s, u, ch)
  {
    stage.OnDisk? ==> MidWrite(s.disk, PathOf(w.cfg, u.id), EncodeUpload(w, s, u, ch).value.1, stage.disk)
  }

  function StateAt(w: World, s: State, u: Upload, ch: Chance, stage: Stage): State
    requires Possible(w, s, u, ch) && Writes(w, s, u, ch)
  {
    var (e, bytes) := EncodeUpload(w, s, u, ch).value;
    var row := NewRow(w, u, ch, e, |bytes|);
    var s0 := s.(buckets := s.buckets + {u.id.bucket});
    var saved := s0.(rows := SaveRow(s.rows, u.id, row), disk := AtomicWrite(s.disk, PathOf(w.cfg, u.id), bytes));
    match stage
    case OnDisk(disk) => s0.(disk := disk)
    case RowSaved => saved
    case MetaCached => saved.(cache := PutMeta(s.cache, u.id, row))
    case ContentCached => saved.(cache := PutContent(PutMeta(s.cache, u.id, row), u.id, bytes))
  }

  /** What the client meant to bind the key to. */
  function Stored(u: Upload): Object {
    Object(u.content, OrElse(u.contentType, "application/octet-stream"), u.opts.expiresAt)
  }

  /** Rows, cache and map are in order at this stage: the map is the old one, and the new one as soon as the row is saved. */
  ghost predicate OldOrNew(w: World, s: State, u: Upload, ch: Chance, stage: Stage)
    requires Possible(w, s, u, ch) && Writes(w, s, u, ch) && Inv(w, s)
  {
    var s' := StateAt(w, s, u, ch, stage);
    Inv(w, s') && View(w, s') == if stage.OnDisk? then View(w, s) else View(w, s)[u.id := Stored(u)]
  }

  /** No row uses the target or its temporary sibling, and the cache holds nothing of the file that the new row would belie. */
  ghost predicate ClearTarget(w: World, s: State, u: Upload, ch: Chance)
    requires Possible(w, s, u, ch) && Writes(w, s, u, ch)
  {
    && TargetFree(w, s, u, ch.(saves := false))
    && CachedMeta(s.cache, u.id).None?
    && CachedContent(s.cache, u.id) in {None, Some(EncodeUpload(w, s, u, ch).value.1)}
  }

  lemma ClearStages(w: World, s: State, u: Upload, ch: Chance, stage: Stage)
    requires w.Lawful() && Inv(w, s) && Possible(w, s, u, ch) && Writes(w, s, u, ch) && ch.saves
    requires ColonFree(u.id) && ClearTarget(w, s, u, ch) && Reachable(w, s, u, ch, stage)
    ensures OldOrNew(w, s, u, ch, stage)
  {
    hide Restore, EncodeUpload, MidWrite, Inv, View, PutMeta, PutContent, AtomicWrite, PathOf, TempPath;
    if stage.OnDisk? {
      MidWriteIsHarmless(w, s, u, ch, EncodeUpload(w, s, u, ch).value.1, stage.disk);
      NewBucket(w, s.(disk := stage.disk), u.id.bucket);
    } else {
      SavedStages(w, s, u, ch, stage);
    }
  }

  lemma NewBucket(w: World, s: State, bucket: string)
    requires Inv(w, s)
    ensures var s' := s.(buckets := s.buckets + {bucket});
            Inv(w, s') && View(w, s') == View(w, s)
  {
  }

  /**
   A store to a fresh key is crash-safe: wherever it stops, all rows keep integrity, the cache stays
   coherent, and the store as a whole shows either the old map or the old map with the new file.
   */
  lemma FreshStoreIsCrashSafe(w: World, s: State, u: Upload, ch: Chance, stage: Stage)
    requires w.Lawful() && Inv(w, s) && Possible(w, s, u, ch) && Writes(w, s, u, ch) && ch.saves
    requires u.id !in s.rows && ColonFree(u.id) && TargetFree(w, s, u, ch)
    requires Reachable(w, s, u, ch, stage)
    ensures var s' := StateAt(w, s, u, ch, stage);
            && Inv(w, s')
            && View(w, s') == if stage.OnDisk? then View(w, s) else View(w, s)[u.id := Stored(u)]
  {
    hide EncodeUpload, MidWrite, View, StateAt, PathOf, TempPath, CachedMeta, CachedContent;
    assert CoherentAt(s, u.id);
    ClearStages(w, s, u, ch, stage);
  }

  lemma SavedStages(w: World, s: State, u: Upload, ch: Chance, stage: Stage)
    requires w.Lawful() && Inv(w, s) && Possible(w, s, u, ch) && Writes(w, s, u, ch) && ch.saves
    requires ColonFree(u.id) && ClearTarget(w, s, u, ch) && !stage.OnDisk?
    ensures var s' := StateAt(w, s, u, ch, stage);
            Inv(w, s') && View(w, s') == View(w, s)[u.id := Stored(u)]
  {
    hide RowIntact, ContentOf, EncodeUpload, PutMeta, PutContent, Coherent, TargetFree, Possible, Writes, NewRow, AtomicWrite;
    hide PathOf, CachedMeta, CachedContent, KeptRow;
    SavedNewRow(w, s, u, ch, stage);
    forall id | id in s.rows && id != u.id
      ensures KeptRow(w, s, StateAt(w, s, u, ch, stage), id)
    {
      SavedRow(w, s, u, ch, stage, id);
    }
    SavedView(w, s, StateAt(w, s, u, ch, stage), u);
    SavedCaches(w, s, u, ch);
    assert stage == RowSaved || stage == MetaCached || stage == ContentCached;
  }

  lemma SavedView(w: World, s: State, s': State, u: Upload)
    requires Intact(w, s) && s'.rows.Keys == s.rows.Keys + {u.id}
    requires RowIntact(w, s'.keys, s'.disk, s'.rows[u.id]) && ContentOf(w, s', u.id) == u.content
    requires s'.rows[u.id].contentType == Stored(u).contentType && s'.rows[u.id].expiresAt == u.opts.expiresAt
    requires forall id :: id in s.rows && id != u.id ==> KeptRow(w, s, s', id)
    ensures Intact(w, s') && View(w, s') == View(w, s)[u.id := Stored(u)]
  {
    hide RowIntact, ContentOf;
  }

  lemma SavedNewRow(w: World, s: State, u: Upload, ch: Chance, stage: Stage)
    requires w.Lawful() && Possible(w, s, u, ch) && Writes(w, s, u, ch) && !stage.OnDisk?
    ensures var s' := StateAt(w, s, u, ch, stage);
            && s'.rows.Keys == s.rows.Keys + {u.id}
            && RowIntact(w, s'.keys, s'.disk, s'.rows[u.id]) && ContentOf(w, s', u.id) == u.content
            && s'.rows[u.id].contentType == Stored(u).contentType
            && s'.rows[u.id].expiresAt == u.opts.expiresAt
  {
    hide Restore, Unsealed, EncodeUpload, PathOf, TempPath, PutMeta, PutContent;
    SavedEncodes(w, s, u, ch);
    NewRowIsIntact(w, s, u, ch, StateAt(w, s, u, ch, stage).disk);
  }

  predicate KeptRow(w: World, s: State, s': State, id: FileId)
    requires id in s.rows
  {
    && id in s'.rows && s'.rows[id] == s.rows[id]
    && RowIntact(w, s.keys, s.disk, s.rows[id]) && RowIntact(w, s'.keys, s'.disk, s'.rows[id])
    && ContentOf(w, s', id) == ContentOf(w, s, id)
  }

  lemma SavedRow(w: World, s: State, u: Upload, ch: Chance, stage: Stage, id: FileId)
    requires Intact(w, s) && Possible(w, s, u, ch) && Writes(w, s, u, ch)
    requires TargetFree(w, s, u, ch.(saves := false)) && !stage.OnDisk? && id in s.rows && id != u.id
    ensures KeptRow(w, s, StateAt(w, s, u, ch, stage), id)
  {
    hide Restore, Unsealed, EncodeUpload, PathOf, TempPath, PutMeta, PutContent, NewRow;
    assert RowIntact(w, s.keys, s.disk, s.rows[id]);
    SavedEncodes(w, s, u, ch);
  }

  lemma SavedCaches(w: World, s: State, u: Upload, ch: Chance)
    requires Coherent(s) && Possible(w, s, u, ch) && Writes(w, s, u, ch) && ColonFree(u.id) && ClearTarget(w, s, u, ch)
    ensures Coherent(StateAt(w, s, u, ch, RowSaved))
    ensures Coherent(StateAt(w, s, u, ch, MetaCached))
    ensures Coherent(StateAt(w, s, u, ch, ContentCached))
  {
    hide EncodeUpload, PathOf, TempPath, CachedMeta, CachedContent, PutMeta, PutContent, SameFile;
    SavedEncodes(w, s, u, ch);
    var (e, bytes) := EncodeUpload(w, s, u, ch).value;
    var row := NewRow(w, u, ch, e, |bytes|);
    var saved, warm := StateAt(w, s, u, ch, RowSaved), StateAt(w, s, u, ch, MetaCached);
    forall id | ColonFree(id)
      ensures CoherentAt(saved, id)
    {
      assert CoherentAt(s, id);
    }
    assert SameFile(row, saved.rows[u.id]) by { SameButForId(row, saved.rows[u.id].uuid); }
    PutMetaKeepsCoherence(saved, u.id, row);
    PutContentKeepsCoherence(warm, u.id);
  }

  lemma SameButForId(row: Row, uuid: nat)
    ensures SameFile(row, row.(uuid := uuid))
  {
  }

  lemma SavedEncodes(w: World, s: State, u: Upload, ch: Chance)
    requires Possible(w, s, u, ch) && Writes(w, s, u, ch)
    ensures EncodeUpload(w, s, u, ch).Ok?
  {
  }

  /** The last stage is what `store_file` returns with. */
  lemma LastStageIsStore(w: World, s: State, u: Upload, ch: Chance)
    requires Possible(w, s, u, ch) && Writes(w, s, u, ch) && ch.saves
    ensures StateAt(w, s, u, ch, ContentCached) == StoreFile(w, s, u, ch).0
  {
  }

  /** A failed insert with its cleanup leaves rows, disk and cache exactly as they were if and only if nothing was there before. */
  lemma FailedStoreLeavesNoTrace(w: World, s: State, u: Upload, ch: Chance)
    requires Possible(w, s, u, ch) && Writes(w, s, u, ch) && !ch.saves
    ensures StoreFile(w, s, u, ch) == (s.(buckets := s.buckets + {u.id.bucket}), Err(Database))
      <==> PathOf(w.cfg, u.id) !in s.disk && TempPath(PathOf(w.cfg, u.id)) !in s.disk
  {
    hide EncodeUpload, PathOf, TempPath;
    var path, s' := PathOf(w.cfg, u.id), StoreFile(w, s, u, ch).0;
    assert s'.disk == s.disk - {path, TempPath(path)};
    if path !in s.disk && TempPath(path) !in s.disk {
      assert s'.disk == s.disk;
    } else {
      assert path in s.disk ==> path !in s'.disk;
      assert TempPath(path) in s.disk ==> TempPath(path) !in s'.disk;
    }
  }

  /** A row stays intact through the whole of a write: it lives elsewhere, or every state of the file fits it. */
  predicate Endures(w: World, s: State, u: Upload, bytes: Bytes, row: Row) {
    var path := PathOf(w.cfg, u.id);
    if row.path == path then Fits(w, s.keys, row, bytes) && (TempPath(path) == path ==> bytes == [])
    else row.path != TempPath(path)
  }

  /** The bytes of an upload can be on their way, wherever they stop, exactly when every row endures them. */
  lemma WriteIsCrashSafe(w: World, s: State, u: Upload, bytes: Bytes)
    requires Intact(w, s)
    ensures (forall disk :: MidWrite(s.disk, PathOf(w.cfg, u.id), bytes, disk) ==> Intact(w, s.(disk := disk)))
       <==> forall id :: id in s.rows ==> Endures(w, s, u, bytes, s.rows[id])
  {
    hide PathOf, TempPath, Restore;
    var path := PathOf(w.cfg, u.id);
    var renamed, created := AtomicWrite(s.disk, path, bytes), s.disk[TempPath(path) := bytes[..0]];
    assert MidWrite(s.disk, path, bytes, renamed);
    assert PartialAt(s.disk, TempPath(path), bytes, created, 0);
    assert MidWrite(s.disk, path, bytes, created);
    forall id | id in s.rows
      ensures RowIntact(w, s.keys, renamed, s.rows[id]) && RowIntact(w, s.keys, created, s.rows[id])
        <==> Endures(w, s, u, bytes, s.rows[id])
    {
      RowEndures(w, s, u, bytes, s.rows[id]);
    }
    forall id, disk | id in s.rows && Endures(w, s, u, bytes, s.rows[id]) && MidWrite(s.disk, path, bytes, disk)
      ensures RowIntact(w, s.keys, disk, s.rows[id])
    {
      RowOutlives(w, s, u, bytes, s.rows[id], disk);
    }
    if forall disk :: MidWrite(s.disk, path, bytes, disk) ==> Intact(w, s.(disk := disk)) {
      assert Intact(w, s.(disk := renamed)) && Intact(w, s.(disk := created));
    }
  }

  lemma RowEndures(w: World, s: State, u: Upload, bytes: Bytes, row: Row)
    requires RowIntact(w, s.keys, s.disk, row)
    ensures (&& RowIntact(w, s.keys, AtomicWrite(s.disk, PathOf(w.cfg, u.id), bytes), row)
             && RowIntact(w, s.keys, s.disk[TempPath(PathOf(w.cfg, u.id)) := bytes[..0]], row))
       <==> Endures(w, s, u, bytes, row)
  {
  }

  lemma RowOutlives(w: World, s: State, u: Upload, bytes: Bytes, row: Row, disk: Disk)
    requires RowIntact(w, s.keys, s.disk, row) && Endures(w, s, u, bytes, row)
    requires MidWrite(s.disk, PathOf(w.cfg, u.id), bytes, disk)
    ensures RowIntact(w, s.keys, disk, row)
  {
  }

  /**
   Crash safety of an upload, exactly: with deduplication on, and the rows at the target encoded alike,
   wherever it stops all rows are intact if and only if no row at all, its own old one included, uses the
   target or its temporary sibling. Overwriting a file in place therefore never is crash-safe.
   */
  lemma UploadIsCrashSafe(w: World, s: State, u: Upload, ch: Chance)
    requires w.Lawful() && Intact(w, s) && Possible(w, s, u, ch) && Writes(w, s, u, ch) && ch.saves && w.cfg.dedup
    requires AlikeAt(w, s, u, ch)
    ensures (forall stage :: Reachable(w, s, u, ch, stage) ==> Intact(w, StateAt(w, s, u, ch, stage)))
       <==> TargetFree(w, s, u, ch.(saves := false))
  {
    hide EncodeUpload, Fits, RowIntact, PathOf, TempPath, MidWrite, StoreFile, PutMeta, PutContent, AtomicWrite;
    var bytes := EncodeUpload(w, s, u, ch).value.1;
    WriteIsCrashSafe(w, s, u, bytes);
    forall id | id in s.rows
      ensures Endures(w, s, u, bytes, s.rows[id])
        <==> s.rows[id].path != PathOf(w.cfg, u.id) && s.rows[id].path != TempPath(PathOf(w.cfg, u.id))
    {
      NewBytesFitNoAlike(w, s, u, ch, id);
    }
    if TargetFree(w, s, u, ch.(saves := false)) {
      forall stage | Reachable(w, s, u, ch, stage)
        ensures Intact(w, StateAt(w, s, u, ch, stage))
      {
        if !stage.OnDisk? {
          SavedStageIntegrity(w, s, u, ch, stage);
        }
      }
    } else if forall stage :: Reachable(w, s, u, ch, stage) ==> Intact(w, StateAt(w, s, u, ch, stage)) {
      forall disk | MidWrite(s.disk, PathOf(w.cfg, u.id), bytes, disk)
        ensures Intact(w, s.(disk := disk))
      {
        assert Reachable(w, s, u, ch, OnDisk(disk));
        assert StateAt(w, s, u, ch, OnDisk(disk)).rows == s.rows;
      }
    }
  }

  /** Once the row is saved, rows and disk are those the upload ends with. */
  lemma SavedStageIntegrity(w: World, s: State, u: Upload, ch: Chance, stage: Stage)
    requires w.Lawful() && Intact(w, s) && Possible(w, s, u, ch) && Writes(w, s, u, ch) && ch.saves
    requires TargetFree(w, s, u, ch) && !stage.OnDisk?
    ensures Intact(w, StateAt(w, s, u, ch, stage))
  {
    hide EncodeUpload, RowIntact, PathOf, TempPath, PutMeta, PutContent, AtomicWrite, NewRow;
    StoreKeepsIntegrity(w, s, u, ch);
    var s' := StoreFile(w, s, u, ch).0;
    assert StateAt(w, s, u, ch, stage).rows == s'.rows && StateAt(w, s, u, ch, stage).disk == s'.disk;
  }

  /**
   Crash safety of an upload as a whole, exactly: under the same hypotheses, wherever it stops the rows are
   intact, the cache is coherent and the map is the old one, or the new one once the row is saved, if and
   only if no row uses the target or its temporary sibling and the cache holds nothing stale of the file.
   */
  lemma StoreIsCrashSafe(w: World, s: State, u: Upload, ch: Chance)
    requires w.Lawful() && Inv(w, s) && Possible(w, s, u, ch) && Writes(w, s, u, ch) && ch.saves && w.cfg.dedup
    requires ColonFree(u.id) && AlikeAt(w, s, u, ch)
    ensures (forall stage :: Reachable(w, s, u, ch, stage) ==> OldOrNew(w, s, u, ch, stage)) <==> ClearTarget(w, s, u, ch)
  {
    hide EncodeUpload, StateAt, View, Intact, Coherent, PathOf, TempPath, MidWrite, CachedMeta, CachedContent, ClearTarget;
    if ClearTarget(w, s, u, ch) {
      forall stage | Reachable(w, s, u, ch, stage)
        ensures OldOrNew(w, s, u, ch, stage)
      {
        ClearStages(w, s, u, ch, stage);
      }
    } else if forall stage :: Reachable(w, s, u, ch, stage) ==> OldOrNew(w, s, u, ch, stage) {
      UploadIsCrashSafe(w, s, u, ch);
      assert Reachable(w, s, u, ch, RowSaved);
      StaleEntries(w, s, u, ch);
    }
  }

  /** Between the row and the cache entries of an upload, what is cached of its file has to be true of the new row. */
  lemma StaleEntries(w: World, s: State, u: Upload, ch: Chance)
    requires Coherent(s) && Possible(w, s, u, ch) && Writes(w, s, u, ch) && ColonFree(u.id)
    requires TargetFree(w, s, u, ch.(saves := false)) && Coherent(StateAt(w, s, u, ch, RowSaved))
    ensures ClearTarget(w, s, u, ch)
  {
  }
}
