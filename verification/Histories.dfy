/**
 Short runs from a fresh store into the states the guards rule out, for every world with deduplication
 on, every pair of keys and every pair of contents with different hashes.
 */
module Histories {
  import opened Base
  import opened Pipeline
  import opened Cache
  import opened Store
  import opened Integrity
  import opened Coherence
  import opened Deletes
  import opened Leaks
  import opened Races
  import opened Runs
  import Readers
  import LateReaders

  ghost predicate Deduplicates(w: World) {
    w.Lawful() && w.cfg.dedup
  }

  /** Neither compressed nor encrypted, and without a deadline. */
  const PLAIN := StoreOptions(Some(false), Some(false), None, None, None, None)
  const CLEAR := Encoding(false, false, None, None)
  const BINARY := "application/octet-stream"

  /** An accepted upload; `duplicate` is what its hash query finds. */
  function Plain(uuid: nat, id: FileId, content: Bytes, duplicate: Option<FileId>): Op {
    Put(Upload(id, content, None, PLAIN), Chance(uuid, seq(12, _ => 0), duplicate, true))
  }

  function PlainRow(w: World, uuid: nat, path: string, content: Bytes): Row {
    Row(uuid, path, |content|, |content|, BINARY, w.p.hash(content), CLEAR, 0, None)
  }

  /** A row and the bytes it stands for, in the clear. */
  predicate Holds(w: World, s: State, id: FileId, path: string, content: Bytes) {
    && id in s.rows && s.rows[id].(uuid := 0) == PlainRow(w, 0, path, content)
    && path in s.disk && s.disk[path] == content
  }

  lemma PlainEncoding(w: World, s: State, op: Op)
    requires op.Put? && op.upload.opts == PLAIN
    ensures EncodeUpload(w, s, op.upload, op.chance) == Ok((CLEAR, op.upload.content))
  {
  }

  /** An upload of a content no row has: it writes its bytes, its row and its cache entries. */
  lemma PlainWrite(w: World, s: State, uuid: nat, id: FileId, content: Bytes)
    requires Deduplicates(w) && Inv(w, s) && ColonFree(id)
    requires forall other :: other in s.rows ==> s.rows[other].hash != w.p.hash(content)
    ensures var op := Plain(uuid, id, content, None);
            && Possible(w, s, op.upload, op.chance) && Writes(w, s, op.upload, op.chance)
            && EncodeUpload(w, s, op.upload, op.chance) == Ok((CLEAR, content))
            && var path := PathOf(w.cfg, id);
               var s' := Step(w, s, op).0;
               && s'.rows == SaveRow(s.rows, id, PlainRow(w, uuid, path, content))
               && s'.disk == AtomicWrite(s.disk, path, content) && s'.keys == s.keys
               && s'.buckets == s.buckets + {id.bucket}
               && s'.cache == PutContent(PutMeta(s.cache, id, PlainRow(w, uuid, path, content)), id, content)
               && Holds(w, s', id, path, content)
  {
  }

  /** The first upload into a fresh store. */
  lemma FirstWrite(w: World, keys: Keys, uuid: nat, id: FileId, content: Bytes)
    requires Deduplicates(w) && ColonFree(id)
    ensures var op := Plain(uuid, id, content, None);
            && Possible(w, Fresh(keys), op.upload, op.chance)
            && var s := Step(w, Fresh(keys), op).0;
               && Inv(w, s) && s.rows.Keys == {id} && s.buckets == {id.bucket} && s.keys == keys
               && s.disk.Keys == {PathOf(w.cfg, id)} && Holds(w, s, id, PathOf(w.cfg, id), content)
               && CachedMeta(s.cache, id) == Some(PlainRow(w, uuid, PathOf(w.cfg, id), content))
               && (|content| <= MAX_CACHE_SIZE ==> CachedContent(s.cache, id) == Some(content))
               && forall other :: ColonFree(other) && other != id ==>
                    CachedMeta(s.cache, other).None? && CachedContent(s.cache, other).None?
  {
    hide PathOf, TempPath, PutMeta, PutContent, EncodeUpload, StoreFile, Intact, Coherent;
    var op, s0 := Plain(uuid, id, content, None), Fresh(keys);
    EmptyStore(w, keys);
    PlainWrite(w, s0, uuid, id, content);
    StoreKeepsIntegrity(w, s0, op.upload, op.chance);
    StoreKeepsCoherence(w, s0, op.upload, op.chance);
    forall other | ColonFree(other)
      ensures var s := Step(w, s0, op).0;
              && CachedMeta(s.cache, other) == (if other == id then Some(PlainRow(w, uuid, PathOf(w.cfg, id), content)) else None)
              && CachedContent(s.cache, other) == (if other == id && |content| <= MAX_CACHE_SIZE then Some(content) else None)
    {
      WriteBranchView(w, s0, op.upload, op.chance, other);
      assert CachedMeta(s0.cache, other).None? && CachedContent(s0.cache, other).None?;
    }
  }

  /** An upload of a content that some other file has, to a file without cache entries: its row joins that file's path. */
  lemma PlainAlias(w: World, s: State, uuid: nat, id: FileId, home: FileId, path: string, content: Bytes)
    requires Deduplicates(w) && Inv(w, s) && ColonFree(id) && id != home && Holds(w, s, home, path, content)
    requires CachedMeta(s.cache, id).None? && CachedContent(s.cache, id).None?
    ensures var op := Plain(uuid, id, content, Some(home));
            && Possible(w, s, op.upload, op.chance)
            && var s' := Step(w, s, op).0;
               && Inv(w, s') && s'.rows == SaveRow(s.rows, id, PlainRow(w, uuid, path, content))
               && s' == s.(rows := s'.rows, buckets := s.buckets + {id.bucket})
               && Holds(w, s', id, path, content) && Holds(w, s', home, path, content)
  {
    hide PathOf, TempPath, CachedMeta, CachedContent, Intact, Coherent, EncodeUpload;
    var op := Plain(uuid, id, content, Some(home));
    StoreKeepsIntegrity(w, s, op.upload, op.chance);
    StoreKeepsCoherence(w, s, op.upload, op.chance);
  }

  lemma TwoSteps(w: World, s: State, a: Op, b: Op)
    requires a.Put? ==> Possible(w, s, a.upload, a.chance)
    requires b.Put? ==> Possible(w, Step(w, s, a).0, b.upload, b.chance)
    ensures PossibleRun(w, s, [a, b]) && End(w, s, [a, b]) == Step(w, Step(w, s, a).0, b).0
  {
    hide Step, Possible;
    var s1 := Step(w, s, a).0;
    assert [a, b][1..] == [b] && [b][1..] == [];
    var s2 := Step(w, s1, b).0;
    assert PossibleRun(w, s2, []) && End(w, s2, []) == s2;
    assert PossibleRun(w, s1, [b]) && End(w, s1, [b]) == s2;
  }

  lemma ThreeSteps(w: World, s: State, a: Op, b: Op, c: Op)
    requires a.Put? ==> Possible(w, s, a.upload, a.chance)
    requires b.Put? ==> Possible(w, Step(w, s, a).0, b.upload, b.chance)
    requires c.Put? ==> Possible(w, Step(w, Step(w, s, a).0, b).0, c.upload, c.chance)
    ensures PossibleRun(w, s, [a, b, c]) && End(w, s, [a, b, c]) == Step(w, Step(w, Step(w, s, a).0, b).0, c).0
  {
    hide Step, Possible;
    TwoSteps(w, Step(w, s, a).0, b, c);
    assert [a, b, c][1..] == [b, c];
  }

  /** Store a content in one bucket, store it again in another, drop the first bucket: the second file loses its bytes. */
  lemma DroppedBucketTakesAliases(w: World, keys: Keys, home: FileId, alias: FileId, content: Bytes)
    requires Deduplicates(w) && ColonFree(home) && ColonFree(alias) && home.bucket != alias.bucket
    ensures var ops := [Plain(1, home, content, None), Plain(2, alias, content, Some(home)), DropBucket(home.bucket)];
            && PossibleRun(w, Fresh(keys), ops)
            && var s := End(w, Fresh(keys), ops);
               alias in s.rows && s.rows[alias].path !in s.disk
  {
    hide TempPath, CachedMeta, CachedContent, Inv, StoreFile;
    var a, b, c := Plain(1, home, content, None), Plain(2, alias, content, Some(home)), DropBucket(home.bucket);
    FirstWrite(w, keys, 1, home, content);
    var s1 := Step(w, Fresh(keys), a).0;
    PlainAlias(w, s1, 2, alias, home, PathOf(w.cfg, home), content);
    ThreeSteps(w, Fresh(keys), a, b, c);
    assert BucketDir(w.cfg, home.bucket) <= PathOf(w.cfg, home);
  }

  /** Store a content under one key, store it again under another, overwrite the first: the second file is broken. */
  lemma OverwrittenHomeBreaksAliases(w: World, keys: Keys, home: FileId, alias: FileId, content: Bytes, other: Bytes)
    requires Deduplicates(w) && ColonFree(home) && ColonFree(alias) && home != alias && w.p.hash(content) != w.p.hash(other)
    ensures var ops := [Plain(1, home, content, None), Plain(2, alias, content, Some(home)), Plain(3, home, other, None)];
            && PossibleRun(w, Fresh(keys), ops)
            && var s := End(w, Fresh(keys), ops);
               alias in s.rows && !RowIntact(w, s.keys, s.disk, s.rows[alias])
  {
    hide PathOf, TempPath, CachedMeta, CachedContent, Inv, StoreFile, Possible, Writes, EncodeUpload;
    var a, b, c := Plain(1, home, content, None), Plain(2, alias, content, Some(home)), Plain(3, home, other, None);
    FirstWrite(w, keys, 1, home, content);
    var s1 := Step(w, Fresh(keys), a).0;
    PlainAlias(w, s1, 2, alias, home, PathOf(w.cfg, home), content);
    var s2 := Step(w, s1, b).0;
    PlainWrite(w, s2, 3, home, other);
    ThreeSteps(w, Fresh(keys), a, b, c);
  }

  /** Overwrite a file and let the insert be refused: the cleanup takes the old file's bytes. */
  lemma RefusedOverwriteLosesTheFile(w: World, keys: Keys, id: FileId, content: Bytes, other: Bytes)
    requires Deduplicates(w) && ColonFree(id) && w.p.hash(content) != w.p.hash(other)
    ensures var refused := Put(Upload(id, other, None, PLAIN), Chance(2, seq(12, _ => 0), None, false));
            var ops := [Plain(1, id, content, None), refused];
            && PossibleRun(w, Fresh(keys), ops)
            && var s := End(w, Fresh(keys), ops);
               id in s.rows && s.rows[id].path !in s.disk
  {
    hide PathOf, TempPath, CachedMeta, CachedContent, Inv, EncodeUpload;
    var refused := Put(Upload(id, other, None, PLAIN), Chance(2, seq(12, _ => 0), None, false));
    FirstWrite(w, keys, 1, id, content);
    PlainEncoding(w, Step(w, Fresh(keys), Plain(1, id, content, None)).0, refused);
    TwoSteps(w, Fresh(keys), Plain(1, id, content, None), refused);
  }

  /** Overwrite a file with a content another file has: readers keep getting the old content, until the cached row is dropped. */
  lemma AliasOverwriteServesTheOldContent(w: World, keys: Keys, id: FileId, twin: FileId, before: Bytes, after: Bytes,
                                          now: int, evicted: set<string>)
    requires Deduplicates(w) && ColonFree(id) && ColonFree(twin) && id != twin && w.p.hash(before) != w.p.hash(after)
    requires PathOf(w.cfg, id) != PathOf(w.cfg, twin) && PathOf(w.cfg, id) != TempPath(PathOf(w.cfg, twin))
    ensures var ops := [Plain(1, id, before, None), Plain(2, twin, after, None), Plain(3, id, after, Some(twin))];
            && PossibleRun(w, Fresh(keys), ops)
            && GetFile(w, End(w, Fresh(keys), ops), id, now, evicted).1 == Ok((before, BINARY))
  {
    hide PathOf, TempPath, CachedMeta, CachedContent, StoreFile, Intact, Coherent, EncodeUpload, GetFile, SameFile;
    var a, b, c := Plain(1, id, before, None), Plain(2, twin, after, None), Plain(3, id, after, Some(twin));
    FirstWrite(w, keys, 1, id, before);
    var s1 := Step(w, Fresh(keys), a).0;
    PlainWrite(w, s1, 2, twin, after);
    StoreKeepsIntegrity(w, s1, b.upload, b.chance);
    UncachedWriteIsSafe(w, s1, b);
    StoreKeepsCoherence(w, s1, b.upload, b.chance);
    WriteBranchView(w, s1, b.upload, b.chance, id);
    var s2 := Step(w, s1, b).0;
    AliasOverCachedFileIsNotSeen(w, s2, c.upload, c.chance, now, evicted);
    ThreeSteps(w, Fresh(keys), a, b, c);
  }

  lemma UncachedWriteIsSafe(w: World, s: State, op: Op)
    requires op.Put? && Possible(w, s, op.upload, op.chance) && Writes(w, s, op.upload, op.chance)
    requires TargetFree(w, s, op.upload, op.chance) && op.chance.saves && CachedContent(s.cache, op.upload.id).None?
    ensures CacheSafe(w, s, op.upload, op.chance)
  {
  }

  /** Overwrite a small file with one above 1 MiB: readers get the small one's bytes, until its cached content is dropped. */
  lemma LargeOverwriteServesTheOldContent(w: World, keys: Keys, id: FileId, small: Bytes, large: Bytes, now: int, evicted: set<string>)
    requires Deduplicates(w) && ColonFree(id) && w.p.hash(small) != w.p.hash(large)
    requires |small| <= MAX_CACHE_SIZE < |large| && ContentKey(id) !in evicted
    ensures var ops := [Plain(1, id, small, None), Plain(2, id, large, None)];
            && PossibleRun(w, Fresh(keys), ops)
            && GetFile(w, End(w, Fresh(keys), ops), id, now, evicted).1 == Ok((small, BINARY))
  {
    hide PathOf, TempPath, MetaKey, ContentKey, StoreFile, Intact, Coherent, EncodeUpload, PutMeta, PutContent, Restore;
    var a, b := Plain(1, id, small, None), Plain(2, id, large, None);
    FirstWrite(w, keys, 1, id, small);
    var s1 := Step(w, Fresh(keys), a).0;
    PlainWrite(w, s1, 2, id, large);
    WriteBranchView(w, s1, b.upload, b.chance, id);
    TwoSteps(w, Fresh(keys), a, b);
  }

  /** Store a content under two keys and delete both at once: some interleaving leaves the bytes behind. */
  lemma DeletingAllAliasesCanLeak(w: World, keys: Keys, home: FileId, alias: FileId, content: Bytes)
    requires Deduplicates(w) && ColonFree(home) && ColonFree(alias) && home != alias
    ensures var ops := [Plain(1, home, content, None), Plain(2, alias, content, Some(home))];
            && PossibleRun(w, Fresh(keys), ops)
            && var sys := System(End(w, Fresh(keys), ops), [Called(home), Called(alias)]);
               exists schedule :: AllReturned(Interleave(sys, schedule)) && !NoLeak(Interleave(sys, schedule).store)
  {
    hide PathOf, TempPath, CachedMeta, CachedContent, Inv, StoreFile, Interleave, Possible, Step, NoLeak, AllReturned;
    var a, b := Plain(1, home, content, None), Plain(2, alias, content, Some(home));
    FirstWrite(w, keys, 1, home, content);
    var s1 := Step(w, Fresh(keys), a).0;
    PlainAlias(w, s1, 2, alias, home, PathOf(w.cfg, home), content);
    TwoSteps(w, Fresh(keys), a, b);
    var s2 := Step(w, s1, b).0;
    var sys := System(s2, [Called(home), Called(alias)]);
    assert s2.rows[home].path == s2.rows[alias].path;
    assert s2.rows.Keys == {home, alias};
    assert PathsOf(s2.rows) == {PathOf(w.cfg, home)} == s2.disk.Keys;
    assert Targets(sys.calls[0], home) && Targets(sys.calls[1], alias);
    LeakFreeExactlyWhenSharersStay(sys);
  }

  /** Store a content, look its hash up for a second upload, and let a delete run before that upload is saved. */
  lemma DeleteBetweenQueryAndSave(w: World, keys: Keys, home: FileId, alias: FileId, content: Bytes)
    requires Deduplicates(w) && ColonFree(home) && ColonFree(alias) && home != alias
    ensures var ops := [Plain(1, home, content, None)];
            && PossibleRun(w, Fresh(keys), ops)
            && var sys := System(End(w, Fresh(keys), ops), [Called(home)]);
               var row := PlainRow(w, 2, PathOf(w.cfg, home), content);
               exists before, after :: !Intact(w, Interleave(Saved(Interleave(sys, before), alias, row), after).store)
  {
    hide PathOf, TempPath, CachedMeta, CachedContent, StoreFile, Interleave, Intact, Coherent, CanUnlink, Step;
    var a, b := Plain(1, home, content, None), Plain(2, alias, content, Some(home));
    FirstWrite(w, keys, 1, home, content);
    var s := Step(w, Fresh(keys), a).0;
    OneStep(w, Fresh(keys), a);
    var sys := System(s, [Called(home)]);
    assert Possible(w, s, b.upload, b.chance);
    assert AliasRow(w, b.upload, b.chance, s.rows[home]) == PlainRow(w, 2, PathOf(w.cfg, home), content);
    SplitAlias(w, sys, b.upload, b.chance);
    LoneRowCanGo(s, home);
  }

  lemma LoneRowCanGo(s: State, id: FileId)
    requires s.rows.Keys == {id}
    ensures CanUnlink(System(s, [Called(id)]), s.rows[id].path)
  {
    var sys := System(s, [Called(id)]);
    assert Dangerous(sys, 0, s.rows[id].path);
    assert OthersGo(sys, s.rows[id].path, id);
  }

  lemma OneStep(w: World, s: State, a: Op)
    requires a.Put? ==> Possible(w, s, a.upload, a.chance)
    ensures PossibleRun(w, s, [a]) && End(w, s, [a]) == Step(w, s, a).0
  {
    hide Step, Possible;
    var s1 := Step(w, s, a).0;
    assert [a][1..] == [];
    assert PossibleRun(w, s1, []) && End(w, s1, []) == s1;
  }

  /** Store a content, then read and delete it at once: some interleaving leaves the deleted file in the cache. */
  lemma ReadDuringDeleteLeavesAStaleEntry(w: World, keys: Keys, id: FileId, content: Bytes, now: int)
    requires Deduplicates(w) && ColonFree(id)
    ensures var ops := [Plain(1, id, content, None)];
            && PossibleRun(w, Fresh(keys), ops)
            && var site := Readers.Site(End(w, Fresh(keys), ops), [Called(id)], [Readers.Asked(id, now)]);
               exists moves :: Readers.AllOver(Readers.Play(w, site, moves)) && !Coherent(Readers.Play(w, site, moves).store)
  {
    hide PathOf, TempPath, CachedMeta, CachedContent, StoreFile, Coherent, Step, Readers.Play;
    var a := Plain(1, id, content, None);
    FirstWrite(w, keys, 1, id, content);
    OneStep(w, Fresh(keys), a);
    var s := Step(w, Fresh(keys), a).0;
    var site := Readers.Site(s, [Called(id)], [Readers.Asked(id, now)]);
    assert WillDelete(site.calls[0], id);
    assert site.readers[0].id in s.rows && Readers.OthersDelete(site, 0, id);
    LateReaders.FreshReadsAmongDeletes(w, site);
  }
}
