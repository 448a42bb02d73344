/** Where the store departs from the simple story: general statements, each with its exact trigger. */
module Departures {
  import opened Base
  import opened Pipeline
  import opened Cache
  import opened Store
  import opened Integrity
  import opened Coherence
  import opened Ranges

  /** An identical re-upload hands back the old row as it is: no new deadline, type or row id. */
  lemma IdenticalReuploadKeepsOldRow(w: World, s: State, u: Upload, ch: Chance)
    requires Possible(w, s, u, ch) && w.cfg.dedup && ch.duplicate == Some(u.id)
    ensures var (s', r) := StoreFile(w, s, u, ch);
            r == Ok(s.rows[u.id]) && s'.rows == s.rows && s'.disk == s.disk && s'.cache == s.cache
  {
  }

  /** An overwrite keeps the id of the row but caches a row with the new id. */
  lemma OverwriteSplitsRowIds(w: World, s: State, u: Upload, ch: Chance)
    requires Possible(w, s, u, ch) && Writes(w, s, u, ch) && ch.saves && u.id in s.rows && ColonFree(u.id)
    ensures var s' := StoreFile(w, s, u, ch).0;
            && s'.rows[u.id].uuid == s.rows[u.id].uuid
            && CachedMeta(s'.cache, u.id).Some? && CachedMeta(s'.cache, u.id).value.uuid == ch.uuid
  {
    hide EncodeUpload, MetaKey, ContentKey, CachedMeta, PutMeta, PutContent;
    WriteBranchView(w, s, u, ch, u.id);
  }

  /** One read of a file: the clock, and what the cache drops half-way. */
  datatype Visit = Visit(now: int, evicted: set<string>)

  /** The state after reading one file again and again. */
  function ReadAll(w: World, s: State, id: FileId, visits: seq<Visit>): State
    decreases visits
  {
    if visits == [] then s else ReadAll(w, GetFile(w, s, id, visits[0].now, visits[0].evicted).0, id, visits[1..])
  }

  /** A cached row with an id no row has: its reads are not counted. */
  predicate Uncounted(s: State, id: FileId) {
    && CachedMeta(s.cache, id).Some?
    && forall other :: other in s.rows ==> s.rows[other].uuid != CachedMeta(s.cache, id).value.uuid
  }

  /** In time, and without dropping that cached row. */
  predicate KeepsCachedRow(s: State, id: FileId, visit: Visit)
    requires id in s.rows
  {
    MetaKey(id) !in visit.evicted && !ExpiredAt(s.rows[id], visit.now)
  }

  lemma UncountedRead(w: World, s: State, id: FileId, visit: Visit)
    requires Intact(w, s) && Coherent(s) && ColonFree(id) && id in s.rows
    requires Uncounted(s, id) && KeepsCachedRow(s, id, visit)
    ensures var s' := GetFile(w, s, id, visit.now, visit.evicted).0;
            s'.rows == s.rows && Intact(w, s') && Coherent(s') && CachedMeta(s'.cache, id) == CachedMeta(s.cache, id)
  {
    hide Decode, Restore, SameFile, RowIntact, ContentKey, MetaKey;
    CacheIsTransparent(w, s, id, visit.now, visit.evicted);
    GetKeepsIntegrity(w, s, id, visit.now, visit.evicted);
    assert CoherentAt(s, id);
    var row := CachedMeta(s.cache, id).value;
    SameFileFields(row, s.rows[id]);
    UncountedAccess(s.rows, row.uuid);
    KeysAreSeparate(id, id);
    assert RowIntact(w, s.keys, s.disk, s.rows[id]);
    PathOnDisk(w, s, id);
  }

  lemma PathOnDisk(w: World, s: State, id: FileId)
    requires id in s.rows && RowIntact(w, s.keys, s.disk, s.rows[id])
    ensures s.rows[id].path in s.disk
  {
  }

  lemma {:induction false} UncountedReads(w: World, s: State, id: FileId, visits: seq<Visit>)
    requires Intact(w, s) && Coherent(s) && ColonFree(id) && id in s.rows
    requires Uncounted(s, id) && forall visit :: visit in visits ==> KeepsCachedRow(s, id, visit)
    ensures ReadAll(w, s, id, visits).rows == s.rows
    decreases visits
  {
    hide Intact, Coherent, GetFile, ExpiredAt, CachedMeta, MetaKey;
    if visits != [] {
      UncountedRead(w, s, id, visits[0]);
      var s' := GetFile(w, s, id, visits[0].now, visits[0].evicted).0;
      forall visit | visit in visits[1..]
        ensures KeepsCachedRow(s', id, visit)
      {
        assert KeepsCachedRow(s, id, visit);
      }
      UncountedReads(w, s', id, visits[1..]);
    }
  }

  /** So while that cached row lives, reads of an overwritten file are not counted, however many there are. */
  lemma ReadsAfterOverwriteAreNotCounted(w: World, s: State, u: Upload, ch: Chance, visits: seq<Visit>)
    requires w.Lawful() && Intact(w, s) && Coherent(s) && ColonFree(u.id) && Possible(w, s, u, ch)
    requires Writes(w, s, u, ch) && ch.saves && u.id in s.rows && TargetFree(w, s, u, ch) && CacheSafe(w, s, u, ch)
    requires forall id :: id in s.rows ==> s.rows[id].uuid != ch.uuid
    requires forall visit :: visit in visits ==>
      MetaKey(u.id) !in visit.evicted && (u.opts.expiresAt.Some? ==> u.opts.expiresAt.value > visit.now)
    ensures var s' := StoreFile(w, s, u, ch).0;
            ReadAll(w, s', u.id, visits).rows == s'.rows
  {
    hide EncodeUpload, MetaKey, ContentKey, CachedMeta, CachedContent, PutMeta, PutContent, Intact, Coherent, TargetFree, CacheSafe, ReadAll;
    StoreKeepsIntegrity(w, s, u, ch);
    StoreKeepsCoherence(w, s, u, ch);
    WriteBranchView(w, s, u, ch, u.id);
    UncountedReads(w, StoreFile(w, s, u, ch).0, u.id, visits);
  }

  lemma UncountedAccess(rows: Rows, uuid: nat)
    requires forall id :: id in rows ==> rows[id].uuid != uuid
    ensures UpdateAccess(rows, uuid) == rows
  {
  }

  /**
   With compression switched off globally, files compressed under a per-upload setting come back decoded
   when asked for in ranges, and as their raw, shorter stored bytes when asked for whole.
   */
  lemma SwitchedOffBranchesDisagree(w: World, s: State, id: FileId, range: string, now: int, drops: Drops)
    requires Coherent(s) && ColonFree(id) && id in s.rows && RowIntact(w, s.keys, s.disk, s.rows[id])
    requires !ExpiredAt(s.rows[id], now) && !w.cfg.settings.compression.enabled
    requires s.rows[id].encoding.isCompressed && !s.rows[id].encoding.isEncrypted
    requires ParseRange(range, |ContentOf(w, s, id)|).Some?
    requires s.disk[s.rows[id].path] != [] && TaggedStream(w.p, s.disk[s.rows[id].path]).Some?
    ensures HandleGet(w, s, id, Some(range), now, drops).1 == Answer(ContentOf(w, s, id), s.rows[id].contentType, Some(range))
    ensures HandleGet(w, s, id, None, now, drops).1 == Full(s.disk[s.rows[id].path], s.rows[id].contentType)
    ensures |s.disk[s.rows[id].path]| < |ContentOf(w, s, id)|
  {
    hide GetFile, Restore, RangeIfPlain, CompressedRange, ParseRange, TaggedStream, CoherentAt, SameFile, LooksLikeByteRange;
    var total := |ContentOf(w, s, id)|;
    ParseRangeIsExact(range, total);
    var (a, b) := ParseRange(range, total).value;
    var s0 := Forget(s, drops.beforeSeek);
    ForgettingIsQuiet(s, s, drops.beforeSeek);
    QuietKeepsContent(w, s, s0, id);
    PlainRange(w, s0, id, a, b);
    var s1 := RangeIfPlain(s0, id, a, b).0;
    QuietIsTransitive(s, s0, s1);
    ForgettingIsQuiet(s, s1, drops.beforeStream);
    var s2 := Forget(s1, drops.beforeStream);
    QuietKeepsContent(w, s, s2, id);
    StreamedRange(w, s2, id, a, b);
    EvictKeepsCoherence(s, drops.beforeDecode);
    CacheIsTransparent(w, Forget(s, drops.beforeDecode), id, now, drops.duringDecode);
  }
}
