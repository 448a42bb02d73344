/**
 Whole runs of the store. Rows, shared bytes, reference counts, caches and lazy expiry together look
 like a plain map from (bucket, key) to content: every guarded run refines a run of that map.
 */
module Runs {
  import opened Base
  import opened Pipeline
  import opened Cache
  import opened Store
  import opened Integrity
  import opened Coherence
  import opened Ranges

  // ---- The simple view ----

  datatype Object = Object(content: Bytes, contentType: string, expiresAt: Option<int>)

  type Objects = map<FileId, Object>

  ghost function View(w: World, s: State): Objects
    requires Intact(w, s)
  {
    map id | id in s.rows :: Object(ContentOf(w, s, id), s.rows[id].contentType, s.rows[id].expiresAt)
  }

  predicate PastDeadline(o: Object, now: int) {
    o.expiresAt.Some? && o.expiresAt.value <= now
  }

  // ---- Operations ----

  datatype Op =
    | Put(upload: Upload, chance: Chance)
    | Fetch(id: FileId, range: Option<string>, now: int, drops: Drops)
    | Info(id: FileId, now: int)
    | Delete(id: FileId)
    | DropBucket(bucket: string)
    | Sweep(now: int)
    | Precache(id: FileId)
    | DropCached(keys: set<string>)
    | AddKey(keyId: string, data: Bytes)
    | DeactivateKey(keyId: string)

  /** What a client is told of a file: its size, type and deadline. */
  datatype Listing = Listing(size: nat, contentType: string, expiresAt: Option<int>)

  datatype Output = Nothing | Done(ok: bool) | Served(response: Response) | Listed(listing: Option<Listing>) | Count(n: nat)

  function ListRow(r: Result<Row>): Output {
    Listed(if r.Ok? then Some(Listing(r.value.originalSize, r.value.contentType, r.value.expiresAt)) else None)
  }

  function ListObject(o: Object): Output {
    Listed(Some(Listing(|o.content|, o.contentType, o.expiresAt)))
  }

  function Step(w: World, s: State, op: Op): (State, Output)
    requires op.Put? ==> Possible(w, s, op.upload, op.chance)
  {
    match op
    case Put(u, ch) =>
      var (s', r) := StoreFile(w, s, u, ch);
      (s', ListRow(r))
    case Fetch(id, range, now, drops) =>
      var (s', r) := HandleGet(w, s, id, range, now, drops);
      (s', Served(r))
    case Info(id, now) =>
      var (s', r) := GetFileInfo(s, id, now);
      (s', ListRow(r))
    case Delete(id) =>
      var (s', r) := DeleteFile(s, id);
      (s', Done(r.Ok?))
    case DropBucket(bucket) =>
      var (s', r) := DeleteBucket(w, s, bucket);
      (s', Done(r.Ok?))
    case Sweep(now) =>
      (Reap(s, ListExpired(s.rows, now)), Count(|ListExpired(s.rows, now)|))
    case Precache(id) =>
      (if id in s.rows then CacheFromDisk(s, id, s.rows[id]).0 else s, Nothing)
    case DropCached(keys) => (Forget(s, keys), Nothing)
    case AddKey(keyId, data) =>
      (if keyId in s.keys then s else s.(keys := s.keys[keyId := KeyRecord(data, true)]), Nothing)
    case DeactivateKey(keyId) =>
      (if keyId in s.keys then s.(keys := s.keys[keyId := s.keys[keyId].(active := false)]) else s, Nothing)
  }

  // ---- What each operation does to the simple view ----

  /** An upload binds its key to its content; only an identical re-upload may keep the old type and deadline. */
  ghost predicate Binds(m: Objects, u: Upload, m': Objects) {
    && u.id in m' && m' == m[u.id := m'[u.id]] && m'[u.id].content == u.content
    && ((u.id in m && m'[u.id] == m[u.id])
        || (m'[u.id].expiresAt == u.opts.expiresAt
            && (u.contentType.Some? ==> m'[u.id].contentType == u.contentType.value)))
  }

  ghost predicate Allowed(m: Objects, op: Op, out: Output, m': Objects) {
    match op
    case Put(u, _) => (out == Listed(None) && m' == m) || (Binds(m, u, m') && out == ListObject(m'[u.id]))
    case Fetch(id, range, now, _) =>
      if id !in m then out == Served(Failed(NotFound)) && m' == m
      else if PastDeadline(m[id], now) then out == Served(Failed(NotFound)) && m' == m - {id}
      else out == Served(Answer(m[id].content, m[id].contentType, range)) && m' == m
    case Info(id, now) =>
      if id !in m then out == Listed(None) && m' == m
      else if PastDeadline(m[id], now) then out == Listed(None) && m' == m - {id}
      else out == ListObject(m[id]) && m' == m
    case Delete(id) => out == Done(id in m) && m' == m - {id}
    case DropBucket(bucket) =>
      out.Done? && m' == m - (set id | id in m && id.bucket == bucket) && (!out.ok ==> m' == m)
    case Sweep(now) =>
      var late := set id | id in m && m[id].expiresAt.Some? && m[id].expiresAt.value < now;
      out == Count(|late|) && m' == m - late
    case Precache(_) => m' == m
    case DropCached(_) => m' == m
    case AddKey(_, _) => m' == m
    case DeactivateKey(_) => m' == m
  }

  // ---- Guards ----

  /** Buckets of requests have no colon, and the hash query answers what the rows allow. */
  ghost predicate Legal(w: World, s: State, op: Op) {
    match op
    case Put(u, ch) => ColonFree(u.id) && Possible(w, s, u, ch)
    case Fetch(id, _, _, _) => ColonFree(id)
    case _ => true
  }

  /** Where the hash takes one content for another, it does no harm: bytes found or overwritten have the content meant. */
  ghost predicate TellsApart(w: World, s: State, u: Upload, ch: Chance)
    requires Intact(w, s) && Possible(w, s, u, ch)
  {
    match BranchOf(w, s, u, ch)
    case Reuse => ContentOf(w, s, u.id) == u.content
    case Alias(_) => ch.saves ==> ContentOf(w, s, ch.duplicate.value) == u.content
    case Write =>
      Writes(w, s, u, ch) && ch.saves ==>
        forall id :: id in s.rows && id != u.id ==> SameContent(w, s, u, ch, id)
  }

  /** The bytes of an upload restore, under a row's own encoding, to the content that row had, if they are written over it. */
  ghost predicate SameContent(w: World, s: State, u: Upload, ch: Chance, id: FileId)
    requires Intact(w, s) && Possible(w, s, u, ch) && Writes(w, s, u, ch) && id in s.rows
  {
    s.rows[id].path == PathOf(w.cfg, u.id) ==>
      Restore(w.p, w.cfg.settings, s.keys, s.rows[id].encoding, EncodeUpload(w, s, u, ch).value.1) == Ok(ContentOf(w, s, id))
  }

  /** What an operation needs to be right. */
  ghost predicate Guard(w: World, s: State, op: Op)
    requires Intact(w, s)
  {
    Legal(w, s, op) &&
    match op
    case Put(u, ch) => KeepsRows(w, s, u, ch) && CacheSafe(w, s, u, ch) && TellsApart(w, s, u, ch)
    case Fetch(id, range, now, _) => id in s.rows && !ExpiredAt(s.rows[id], now) ==> Servable(w, s, id, range)
    case DropBucket(bucket) => bucket in s.buckets ==> NobodyInside(w, s, bucket)
    case _ => true
  }

  /** No row of another bucket has its bytes in this bucket's directory. */
  ghost predicate NobodyInside(w: World, s: State, bucket: string) {
    forall id :: id in s.rows && id.bucket != bucket ==> !(BucketDir(w.cfg, bucket) <= s.rows[id].path)
  }

  /** The hash tells the upload apart from the stored contents. */
  ghost predicate NoCollision(w: World, s: State, content: Bytes)
    requires Intact(w, s)
  {
    forall id :: id in s.rows && s.rows[id].hash == w.p.hash(content) ==> ContentOf(w, s, id) == content
  }

  ghost predicate Inv(w: World, s: State) {
    && Intact(w, s) && Coherent(s)
    && forall id :: id in s.rows ==> ColonFree(id) && id.bucket in s.buckets
  }

  // ---- One step ----

  lemma ReapView(w: World, s: State, gone: set<FileId>)
    requires Inv(w, s) && gone <= s.rows.Keys
    ensures Inv(w, Reap(s, gone)) && View(w, Reap(s, gone)) == View(w, s) - gone
  {
    hide Coherent, InvalidateAll, RowIntact, ContentOf;
    ReapKeepsIntegrity(w, s, gone);
    ReapKeepsCoherence(s, gone);
    forall id | id in s.rows && id !in gone
      ensures View(w, Reap(s, gone))[id] == View(w, s)[id]
    {
      ReapedContent(w, s, gone, id);
    }
  }

  lemma ReapedContent(w: World, s: State, gone: set<FileId>, id: FileId)
    requires Intact(w, s) && Intact(w, Reap(s, gone)) && id in s.rows && id !in gone
    ensures var s' := Reap(s, gone);
            && id in s'.rows && s'.rows[id] == s.rows[id]
            && RowIntact(w, s.keys, s.disk, s.rows[id]) && RowIntact(w, s'.keys, s'.disk, s'.rows[id])
            && ContentOf(w, s', id) == ContentOf(w, s, id)
  {
  }

  lemma DeleteRefines(w: World, s: State, id: FileId)
    requires Inv(w, s)
    ensures var s' := DeleteFile(s, id).0;
            Inv(w, s') && View(w, s') == View(w, s) - {id}
  {
    if id in s.rows {
      DeleteIsReap(s, id);
      ReapView(w, s, {id});
    }
  }

  lemma QuietView(w: World, s: State, s': State)
    requires Inv(w, s) && Quiet(s, s')
    ensures Inv(w, s') && View(w, s') == View(w, s)
  {
  }

  lemma InfoRefines(w: World, s: State, id: FileId, now: int)
    requires Inv(w, s)
    ensures var (s', out) := Step(w, s, Info(id, now));
            Inv(w, s') && Allowed(View(w, s), Info(id, now), out, View(w, s'))
  {
    hide Restore, DeleteFile;
    DeleteRefines(w, s, id);
    if id in s.rows {
      assert RowIntact(w, s.keys, s.disk, s.rows[id]);
    }
  }

  /** A download never breaks the invariant, and gives the map's answer exactly when it meets its guard. */
  lemma FetchRefines(w: World, s: State, op: Op)
    requires Inv(w, s) && op.Fetch? && ColonFree(op.id)
    ensures var (s', out) := Step(w, s, op);
            Inv(w, s') && (Allowed(View(w, s), op, out, View(w, s')) <==> Guard(w, s, op))
  {
    hide Restore, HandleGet, RowIntact, DeleteFile, Servable, Answer;
    var id, now := op.id, op.now;
    if id in s.rows && !ExpiredAt(s.rows[id], now) {
      assert RowIntact(w, s.keys, s.disk, s.rows[id]);
      AllBranchesAgree(w, s, id, op.range, now, op.drops);
      QuietView(w, s, HandleGet(w, s, id, op.range, now, op.drops).0);
    } else {
      GoneIsNotFound(w, s, id, op.range, now, op.drops);
      FetchGoneState(w, s, id, op.range, now, op.drops);
      DeleteRefines(w, s, id);
      QuietView(w, DeleteFile(s, id).0, Step(w, s, op).0);
    }
  }

  /** Asking for a missing or expired file leaves at most the delete of its row behind. */
  lemma FetchGoneState(w: World, s: State, id: FileId, range: Option<string>, now: int, drops: Drops)
    requires Coherent(s) && ColonFree(id)
    requires id !in s.rows || ExpiredAt(s.rows[id], now)
    ensures Quiet(DeleteFile(s, id).0, HandleGet(w, s, id, range, now, drops).0)
  {
    var s1 := GetFileInfo(s, id, now).0;
    DeleteKeepsCoherence(s, id);
    EvictKeepsCoherence(s, drops.beforeDecode);
    EvictKeepsCoherence(s1, drops.beforeDecode);
    CacheIsTransparent(w, Forget(s, drops.beforeDecode), id, now, drops.duringDecode);
    CacheIsTransparent(w, Forget(s1, drops.beforeDecode), id, now, drops.duringDecode);
  }

  /** Removing a directory no row lives in. */
  lemma RemoveDirRefines(w: World, s: State, dir: string, buckets: set<string>)
    requires Inv(w, s) && forall id :: id in s.rows ==> id.bucket in buckets && !(dir <= s.rows[id].path)
    ensures var s' := s.(disk := RemoveDir(s.disk, dir), buckets := buckets);
            Inv(w, s') && View(w, s') == View(w, s)
  {
  }

  /** A bucket delete is right exactly when it meets its guard. */
  lemma DropBucketRefines(w: World, s: State, bucket: string)
    requires Inv(w, s)
    ensures var (s', out) := Step(w, s, DropBucket(bucket));
            && ((Inv(w, s') && Allowed(View(w, s), DropBucket(bucket), out, View(w, s'))) <==> Guard(w, s, DropBucket(bucket)))
            && out == Done(bucket in s.buckets)
  {
    hide Coherent, RowIntact, ContentOf, InvalidateAll, BucketDir, RemoveDir, PathsOf, View, Intact;
    if bucket in s.buckets {
      DeleteBucketIntegrity(w, s, bucket);
      if NobodyInside(w, s, bucket) {
        EmptyDirectoryRefines(w, s, bucket);
      }
    } else {
      MissingBucketRefines(w, s, bucket);
    }
  }

  lemma MissingBucketRefines(w: World, s: State, bucket: string)
    requires Inv(w, s) && bucket !in s.buckets
    ensures var (s', out) := Step(w, s, DropBucket(bucket));
            s' == s && Allowed(View(w, s), DropBucket(bucket), out, View(w, s))
  {
    hide Coherent, RowIntact, ContentOf;
    assert (set id | id in View(w, s) && id.bucket == bucket) == {};
  }

  lemma EmptyDirectoryRefines(w: World, s: State, bucket: string)
    requires Inv(w, s) && bucket in s.buckets && NobodyInside(w, s, bucket)
    ensures var (s', out) := Step(w, s, DropBucket(bucket));
            Inv(w, s') && Allowed(View(w, s), DropBucket(bucket), out, View(w, s'))
  {
    hide Coherent, RowIntact, ContentOf, InvalidateAll, BucketDir, RemoveDir, PathsOf;
    var gone := RowsIn(s.rows, bucket);
    assert gone == set id | id in View(w, s) && id.bucket == bucket;
    ReapView(w, s, gone);
    RemoveDirRefines(w, Reap(s, gone), BucketDir(w.cfg, bucket), s.buckets - {bucket});
  }

  lemma SweepRefines(w: World, s: State, now: int)
    requires Inv(w, s)
    ensures var (s', out) := Step(w, s, Sweep(now));
            Inv(w, s') && Allowed(View(w, s), Sweep(now), out, View(w, s'))
  {
    var late := ListExpired(s.rows, now);
    ReapView(w, s, late);
    var m := View(w, s);
    assert late == set id | id in m && m[id].expiresAt.Some? && m[id].expiresAt.value < now;
  }

  lemma KeysRefine(w: World, s: State, s': State)
    requires Inv(w, s) && KeysEvolve(s.keys, s'.keys) && s' == s.(keys := s'.keys)
    ensures Inv(w, s') && View(w, s') == View(w, s)
  {
    hide Restore;
    SameBytesKeepIntegrity(w, s, s');
    forall id | id in s.rows
      ensures ContentOf(w, s', id) == ContentOf(w, s, id)
    {
      assert RowIntact(w, s.keys, s.disk, s.rows[id]);
      RestoreIsStable(w, s.keys, s'.keys, s.rows[id].encoding, s.disk[s.rows[id].path]);
    }
    forall id | ColonFree(id)
      ensures CoherentAt(s', id)
    {
      assert CoherentAt(s, id);
    }
  }

  /** What an upload does to the map, if it is right. */
  ghost predicate PutEffect(w: World, s: State, u: Upload, s': State, r: Result<Row>)
    requires Intact(w, s) && Intact(w, s')
  {
    if r.Ok? then Binds(View(w, s), u, View(w, s')) && ListRow(r) == ListObject(View(w, s')[u.id])
    else View(w, s') == View(w, s)
  }

  /** An upload is right exactly when it meets its guard. */
  lemma PutRefines(w: World, s: State, u: Upload, ch: Chance)
    requires w.Lawful() && Inv(w, s) && ColonFree(u.id) && Possible(w, s, u, ch)
    ensures var (s', r) := StoreFile(w, s, u, ch);
            (Inv(w, s') && PutEffect(w, s, u, s', r)) <==> Guard(w, s, Put(u, ch))
  {
    hide EncodeUpload, StoreFile, Intact, Coherent, CacheSafe, KeepsRows, TellsApart, PutEffect;
    UploadIntegrity(w, s, u, ch);
    StoreKeepsCoherence(w, s, u, ch);
    StoredKeys(w, s, u, ch);
    if Intact(w, StoreFile(w, s, u, ch).0) {
      PutBinds(w, s, u, ch);
    }
  }

  lemma PutBinds(w: World, s: State, u: Upload, ch: Chance)
    requires w.Lawful() && Inv(w, s) && Possible(w, s, u, ch) && Intact(w, StoreFile(w, s, u, ch).0)
    ensures var (s', r) := StoreFile(w, s, u, ch);
            PutEffect(w, s, u, s', r) <==> TellsApart(w, s, u, ch)
  {
    hide EncodeUpload, StoreFile, RowIntact, Intact, Coherent, ContentOf, View, SameContent, AliasRow, Writes, Binds, TellsApart;
    var (s', r) := StoreFile(w, s, u, ch);
    OthersInMap(w, s, u, ch);
    WhenOk(w, s, u, ch);
    if r.Err? {
      assert View(w, s') == View(w, s);
      assert TellsApart(w, s, u, ch) by { FailedTellsApart(w, s, u, ch); }
    } else {
      BindsWhen(w, s, u, ch);
      ReturnsTheRow(w, s, u, ch);
      ListsTheObject(w, s', u.id, r.value);
    }
  }

  /** An upload returns the row it leaves behind, but for the id of a row it overwrote. */
  lemma ReturnsTheRow(w: World, s: State, u: Upload, ch: Chance)
    requires Possible(w, s, u, ch) && StoreFile(w, s, u, ch).1.Ok?
    ensures var (s', r) := StoreFile(w, s, u, ch);
            u.id in s'.rows && r.value.(uuid := s'.rows[u.id].uuid) == s'.rows[u.id]
  {
    hide EncodeUpload, PutMeta, PutContent;
  }

  lemma ListsTheObject(w: World, s: State, id: FileId, row: Row)
    requires Intact(w, s) && id in s.rows && row.(uuid := s.rows[id].uuid) == s.rows[id]
    ensures ListRow(Ok(row)) == ListObject(View(w, s)[id])
  {
    hide Restore, Unsealed;
    assert RowIntact(w, s.keys, s.disk, s.rows[id]);
  }

  lemma FailedTellsApart(w: World, s: State, u: Upload, ch: Chance)
    requires Intact(w, s) && Possible(w, s, u, ch) && StoreFile(w, s, u, ch).1.Err?
    ensures TellsApart(w, s, u, ch)
  {
  }

  /** The map after an upload: the same keys and the new one, and every other entry as it was unless its bytes were written over. */
  lemma OthersInMap(w: World, s: State, u: Upload, ch: Chance)
    requires Intact(w, s) && Possible(w, s, u, ch) && Intact(w, StoreFile(w, s, u, ch).0)
    ensures var (s', r) := StoreFile(w, s, u, ch);
            && View(w, s').Keys == (if r.Ok? then View(w, s).Keys + {u.id} else View(w, s).Keys)
            && View(w, s).Keys == s.rows.Keys
            && forall id :: id in s.rows && (id != u.id || r.Err? || BranchOf(w, s, u, ch).Reuse?) ==>
                 (View(w, s')[id] == View(w, s)[id]
                  <==> (Writes(w, s, u, ch) && ch.saves && id != u.id ==> SameContent(w, s, u, ch, id)))
  {
    hide EncodeUpload, StoreFile, RowIntact, Intact, ContentOf, View, SameContent, BranchOf, Writes;
    var (s', r) := StoreFile(w, s, u, ch);
    StoredKeys(w, s, u, ch);
    ViewKeys(w, s);
    ViewKeys(w, s');
    forall id | id in s.rows && (id != u.id || r.Err? || BranchOf(w, s, u, ch).Reuse?)
      ensures View(w, s')[id] == View(w, s)[id]
        <==> (Writes(w, s, u, ch) && ch.saves && id != u.id ==> SameContent(w, s, u, ch, id))
    {
      OtherContent(w, s, u, ch, id);
      ViewAt(w, s, id);
      ViewAt(w, s', id);
    }
  }

  /** A successful upload binds its key exactly when the others' contents survived and the bytes found have the content meant. */
  lemma BindsWhen(w: World, s: State, u: Upload, ch: Chance)
    requires w.Lawful() && Intact(w, s) && Possible(w, s, u, ch) && Intact(w, StoreFile(w, s, u, ch).0)
    requires StoreFile(w, s, u, ch).1.Ok?
    ensures Binds(View(w, s), u, View(w, StoreFile(w, s, u, ch).0)) <==> TellsApart(w, s, u, ch)
  {
    hide EncodeUpload, StoreFile, RowIntact, Intact, ContentOf, View, SameContent, AliasRow;
    var (s', r) := StoreFile(w, s, u, ch);
    var m, m' := View(w, s), View(w, s');
    OthersInMap(w, s, u, ch);
    WhenOk(w, s, u, ch);
    StoredContent(w, s, u, ch);
    ViewAt(w, s', u.id);
    UpdateOneKey(m, u.id, m');
    if u.id in s.rows {
      ViewAt(w, s, u.id);
    }
  }

  lemma UpdateOneKey(m: Objects, id: FileId, m': Objects)
    requires m'.Keys == m.Keys + {id}
    ensures m' == m[id := m'[id]] <==> forall other :: other in m && other != id ==> m'[other] == m[other]
  {
  }

  lemma WhenOk(w: World, s: State, u: Upload, ch: Chance)
    requires Possible(w, s, u, ch)
    ensures StoreFile(w, s, u, ch).1.Ok? <==>
      match BranchOf(w, s, u, ch)
      case Reuse => true
      case Alias(_) => ch.saves
      case Write => Writes(w, s, u, ch) && ch.saves
  {
  }

  lemma ViewKeys(w: World, s: State)
    requires Intact(w, s)
    ensures View(w, s).Keys == s.rows.Keys
  {
  }

  lemma ViewAt(w: World, s: State, id: FileId)
    requires Intact(w, s) && id in s.rows
    ensures RowIntact(w, s.keys, s.disk, s.rows[id])
    ensures View(w, s)[id] == Object(ContentOf(w, s, id), s.rows[id].contentType, s.rows[id].expiresAt)
  {
  }

  lemma StoredKeys(w: World, s: State, u: Upload, ch: Chance)
    requires Possible(w, s, u, ch)
    ensures var (s', r) := StoreFile(w, s, u, ch);
            && s'.rows.Keys == (if r.Ok? then s.rows.Keys + {u.id} else s.rows.Keys)
            && s'.buckets == s.buckets + {u.id.bucket}
  {
  }

  /** The row of every other file, and of the file itself when the upload fails or reuses it, stays. */
  lemma OtherRow(w: World, s: State, u: Upload, ch: Chance, id: FileId)
    requires Possible(w, s, u, ch)
    requires id in s.rows && (id != u.id || StoreFile(w, s, u, ch).1.Err? || BranchOf(w, s, u, ch).Reuse?)
    ensures var s' := StoreFile(w, s, u, ch).0;
            id in s'.rows && s'.rows[id] == s.rows[id] && s'.keys == s.keys
  {
    hide EncodeUpload, PathOf, TempPath, PutMeta, PutContent, NewRow, AliasRow;
  }

  /** What a path holds after an upload, if it holds anything. */
  lemma BytesAfter(w: World, s: State, u: Upload, ch: Chance, path: string)
    requires Possible(w, s, u, ch) && path in StoreFile(w, s, u, ch).0.disk
    ensures var disk' := StoreFile(w, s, u, ch).0.disk;
            if Writes(w, s, u, ch) && ch.saves && path == PathOf(w.cfg, u.id)
            then disk'[path] == EncodeUpload(w, s, u, ch).value.1
            else path in s.disk && disk'[path] == s.disk[path]
  {
    hide EncodeUpload, PathOf, TempPath, PutMeta, PutContent, NewRow, AliasRow;
  }

  /** Every other file keeps its content unless other bytes are written over it. */
  lemma OtherContent(w: World, s: State, u: Upload, ch: Chance, id: FileId)
    requires Intact(w, s) && Possible(w, s, u, ch) && Intact(w, StoreFile(w, s, u, ch).0)
    requires id in s.rows && (id != u.id || StoreFile(w, s, u, ch).1.Err? || BranchOf(w, s, u, ch).Reuse?)
    ensures var s' := StoreFile(w, s, u, ch).0;
            && id in s'.rows && s'.rows[id] == s.rows[id]
            && RowIntact(w, s.keys, s.disk, s.rows[id]) && RowIntact(w, s'.keys, s'.disk, s'.rows[id])
            && (ContentOf(w, s', id) == ContentOf(w, s, id)
                <==> (Writes(w, s, u, ch) && ch.saves && id != u.id ==> SameContent(w, s, u, ch, id)))
  {
    hide Restore, Unsealed, EncodeUpload, PathOf, StoreFile, BranchOf;
    OtherRow(w, s, u, ch, id);
    WhenOk(w, s, u, ch);
    var s' := StoreFile(w, s, u, ch).0;
    assert RowIntact(w, s.keys, s.disk, s.rows[id]) && RowIntact(w, s'.keys, s'.disk, s'.rows[id]);
    BytesAfter(w, s, u, ch, s.rows[id].path);
  }

  lemma StoredContent(w: World, s: State, u: Upload, ch: Chance)
    requires w.Lawful() && Intact(w, s) && Possible(w, s, u, ch) && StoreFile(w, s, u, ch).1.Ok?
    requires Intact(w, StoreFile(w, s, u, ch).0)
    ensures var s' := StoreFile(w, s, u, ch).0;
            var branch := BranchOf(w, s, u, ch);
            && u.id in s'.rows
            && (branch.Write? ==> ContentOf(w, s', u.id) == u.content)
            && (branch.Alias? ==> ContentOf(w, s', u.id) == ContentOf(w, s, ch.duplicate.value))
            && (branch.Reuse? ==> u.id in s.rows)
            && (!branch.Reuse? ==>
                  && s'.rows[u.id].expiresAt == u.opts.expiresAt
                  && (u.contentType.Some? ==> s'.rows[u.id].contentType == u.contentType.value))
  {
    hide Restore, Unsealed, EncodeUpload, PathOf, TempPath, PutMeta, PutContent;
    var s' := StoreFile(w, s, u, ch).0;
    assert RowIntact(w, s'.keys, s'.disk, s'.rows[u.id]);
    match BranchOf(w, s, u, ch)
    case Reuse =>
    case Alias(existing) => assert RowIntact(w, s.keys, s.disk, s.rows[ch.duplicate.value]);
    case Write => NewRowIsIntact(w, s, u, ch, s'.disk);
  }

  lemma PrecacheRefines(w: World, s: State, id: FileId)
    requires Inv(w, s)
    ensures var s' := Step(w, s, Precache(id)).0;
            Inv(w, s') && View(w, s') == View(w, s)
  {
    hide Restore, PutContent;
    var s' := Step(w, s, Precache(id)).0;
    if id in s.rows {
      assert RowIntact(w, s.keys, s.disk, s.rows[id]);
      PutContentKeepsCoherence(s, id);
      QuietView(w, s, s');
    }
  }

  /**
   Every legal operation, from every state satisfying the invariant, keeps it and has its effect on the
   simple map if and only if it meets its guard.
   */
  lemma StepRefines(w: World, s: State, op: Op)
    requires w.Lawful() && Inv(w, s) && Legal(w, s, op)
    ensures var (s', out) := Step(w, s, op);
            (Inv(w, s') && Allowed(View(w, s), op, out, View(w, s'))) <==> Guard(w, s, op)
  {
    hide Inv, View, Binds, StoreFile, HandleGet, DeleteBucket, DeleteFile, GetFileInfo, CacheFromDisk, Reap,
      KeepsRows, CacheSafe, TellsApart, NobodyInside, Servable;
    InvIsIntact(w, s);
    match op
    case Put(u, ch) =>
      PutRefines(w, s, u, ch);
      InvIsIntact(w, StoreFile(w, s, u, ch).0);
    case Fetch(_, _, _, _) => FetchRefines(w, s, op);
    case Info(id, now) => InfoRefines(w, s, id, now);
    case Delete(id) => DeleteOutcome(w, s, id);
    case DropBucket(bucket) => DropBucketRefines(w, s, bucket);
    case Sweep(now) => SweepRefines(w, s, now);
    case Precache(id) => PrecacheRefines(w, s, id);
    case DropCached(keys) => DropCachedRefines(w, s, keys);
    case AddKey(_, _) => KeysRefine(w, s, Step(w, s, op).0);
    case DeactivateKey(_) => KeysRefine(w, s, Step(w, s, op).0);
  }

  lemma InvIsIntact(w: World, s: State)
    ensures Inv(w, s) ==> Intact(w, s)
  {
  }

  lemma DeleteOutcome(w: World, s: State, id: FileId)
    requires Inv(w, s)
    ensures var (s', r) := DeleteFile(s, id);
            Inv(w, s') && View(w, s') == View(w, s) - {id} && (r.Ok? <==> id in View(w, s))
  {
    DeleteRefines(w, s, id);
  }

  lemma DropCachedRefines(w: World, s: State, keys: set<string>)
    requires Inv(w, s)
    ensures var s' := Forget(s, keys);
            Inv(w, s') && View(w, s') == View(w, s)
  {
  }

  // ---- Whole runs ----

  /** A fresh store. */
  function Fresh(keys: Keys): State {
    State(map[], map[], map[], keys, {})
  }

  /** Every upload of the run meets an outcome of its hash query that the rows allow. */
  ghost predicate PossibleRun(w: World, s: State, ops: seq<Op>)
    decreases ops
  {
    ops == []
    || ((ops[0].Put? ==> Possible(w, s, ops[0].upload, ops[0].chance)) && PossibleRun(w, Step(w, s, ops[0]).0, ops[1..]))
  }

  /** The state a run ends in. */
  ghost function End(w: World, s: State, ops: seq<Op>): State
    requires PossibleRun(w, s, ops)
    decreases ops
  {
    if ops == [] then s else End(w, Step(w, s, ops[0]).0, ops[1..])
  }

  /** Every operation of the run meets its guard in the state it starts from. */
  ghost predicate Guarded(w: World, s: State, ops: seq<Op>)
    decreases ops
  {
    ops == [] || (Intact(w, s) && Guard(w, s, ops[0]) && Guarded(w, Step(w, s, ops[0]).0, ops[1..]))
  }

  ghost function Run(w: World, s: State, ops: seq<Op>): (State, seq<Output>)
    requires Guarded(w, s, ops)
    decreases ops
  {
    if ops == [] then (s, [])
    else
      var (s1, out) := Step(w, s, ops[0]);
      var (s2, outs) := Run(w, s1, ops[1..]);
      (s2, [out] + outs)
  }

  ghost predicate AllowedRun(m: Objects, ops: seq<Op>, outs: seq<Output>, m': Objects)
    decreases ops
  {
    |outs| == |ops| &&
    if ops == [] then m' == m
    else exists m1 :: Allowed(m, ops[0], outs[0], m1) && AllowedRun(m1, ops[1..], outs[1..], m')
  }

  /**
   The store is a map. After any guarded run of uploads, range requests, info requests, deletes, bucket
   deletes, sweeps, evictions, pre-caching and key changes, integrity and cache coherence hold, and every
   answer given along the way is the one the plain map gives.
   */
  lemma {:induction false} RunRefines(w: World, s: State, ops: seq<Op>)
    requires w.Lawful() && Inv(w, s) && Guarded(w, s, ops)
    ensures var (s', outs) := Run(w, s, ops);
            Inv(w, s') && AllowedRun(View(w, s), ops, outs, View(w, s'))
    decreases ops
  {
    hide Inv, View, Allowed, Step;
    if ops != [] {
      StepRefines(w, s, ops[0]);
      var (s1, out) := Step(w, s, ops[0]);
      RunRefines(w, s1, ops[1..]);
      var (s2, outs) := Run(w, s1, ops[1..]);
      assert ([out] + outs)[1..] == outs;
    }
  }

  /** Every operation of the run keeps the invariant and gives the answer and the effect that the plain map gives. */
  ghost predicate RightRun(w: World, s: State, ops: seq<Op>)
    requires LegalRun(w, s, ops) && Inv(w, s)
    decreases ops
  {
    ops == [] ||
    var (s1, out) := Step(w, s, ops[0]);
    Inv(w, s1) && Allowed(View(w, s), ops[0], out, View(w, s1)) && RightRun(w, s1, ops[1..])
  }

  ghost predicate LegalRun(w: World, s: State, ops: seq<Op>)
    decreases ops
  {
    ops == [] || (Legal(w, s, ops[0]) && LegalRun(w, Step(w, s, ops[0]).0, ops[1..]))
  }

  /** The guards are exact over whole runs: a legal run is right at every step if and only if it is guarded. */
  lemma {:induction false} RightExactlyWhenGuarded(w: World, s: State, ops: seq<Op>)
    requires w.Lawful() && Inv(w, s) && LegalRun(w, s, ops)
    ensures RightRun(w, s, ops) <==> Guarded(w, s, ops)
    decreases ops
  {
    hide Inv, View, Allowed, Step, Guard;
    InvIsIntact(w, s);
    if ops != [] {
      StepRefines(w, s, ops[0]);
      var s1 := Step(w, s, ops[0]).0;
      if Inv(w, s1) {
        RightExactlyWhenGuarded(w, s1, ops[1..]);
      }
    }
  }

  /** The empty store satisfies the invariant. */
  lemma EmptyStore(w: World, keys: Keys)
    ensures Inv(w, Fresh(keys))
    ensures View(w, Fresh(keys)) == map[]
  {
  }

  /** Any first upload into an empty store meets its guard. */
  lemma FirstUploadIsGuarded(w: World, keys: Keys, u: Upload, ch: Chance)
    requires ColonFree(u.id) && ch.duplicate == None
    ensures Guarded(w, Fresh(keys), [Put(u, ch)])
  {
    hide StoreFile, EncodeUpload;
    var ops := [Put(u, ch)];
    var s := Fresh(keys);
    assert Guard(w, s, ops[0]);
    assert ops[1..] == [];
  }

  /** A collision-free hash tells every upload apart. */
  lemma InjectiveHashTellsApart(w: World, s: State, u: Upload, ch: Chance)
    requires Intact(w, s) && Possible(w, s, u, ch) && KeepsRows(w, s, u, ch)
    requires forall a, b :: w.p.hash(a) == w.p.hash(b) ==> a == b
    ensures TellsApart(w, s, u, ch)
  {
  }

  /** The simple guard of an upload: a free target, a safe cache, and no collision where deduplication looks for one. */
  lemma FreeTargetIsEnough(w: World, s: State, u: Upload, ch: Chance)
    requires w.Lawful() && Intact(w, s) && ColonFree(u.id) && Possible(w, s, u, ch) && CacheSafe(w, s, u, ch)
    requires Writes(w, s, u, ch) ==> TargetFree(w, s, u, ch)
    requires w.cfg.dedup ==> NoCollision(w, s, u.content)
    ensures Guard(w, s, Put(u, ch))
  {
    hide Restore, Unsealed, EncodeUpload, PathOf, TempPath, CacheSafe, RowIntact, ContentOf, Survives;
    StoreKeepsIntegrity(w, s, u, ch);
    UploadIntegrity(w, s, u, ch);
  }
}
