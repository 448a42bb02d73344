/**
 Reads in flight among deletes in flight, step by step and under evictions at any moment: which readers
 are late for their file, and that without them the cache is coherent once everyone is over.
 */
module Readers {
  import opened Base
  import opened Pipeline
  import opened Cache
  import opened Store
  import opened Coherence
  import opened Deletes
  import opened Races

  /** How far one `get_file` call has come. */
  datatype Reader =
    | Asked(id: FileId, now: int)
    | Loaded(id: FileId, row: Row, now: int)
    | Held(id: FileId, row: Row, now: int)
    | Fetched(id: FileId, row: Row, raw: Bytes)
    | Serving(row: Row, raw: Bytes)
    | Clearing(call: Process)
    | Over

  datatype Site = Site(store: State, calls: seq<Process>, readers: seq<Reader>)

  /** A call or a reader takes its next step, or the cache drops some entries. */
  datatype Move = Call(i: nat) | Read(j: nat) | Drop(keys: set<string>)

  /** The next atomic action of one reader: between them, anything can happen. */
  function Take(w: World, s: State, r: Reader): (State, Reader) {
    match r
    case Asked(id, now) =>
      if CachedMeta(s.cache, id).Some? then (s, Held(id, CachedMeta(s.cache, id).value, now))
      else (s, if id in s.rows then Loaded(id, s.rows[id], now) else Over)
    case Loaded(id, row, now) => (s.(cache := PutMeta(s.cache, id, row)), Held(id, row, now))
    case Held(id, row, now) =>
      if ExpiredAt(row, now) then (s, Clearing(Called(id)))
      else if CachedContent(s.cache, id).Some? then (s, Serving(row, CachedContent(s.cache, id).value))
      else (s, if row.path in s.disk then Fetched(id, row, s.disk[row.path]) else Clearing(Called(id)))
    case Fetched(id, row, raw) => (s.(cache := PutContent(s.cache, id, raw)), Serving(row, raw))
    case Serving(row, raw) => (Deliver(w, s, row, raw).0, Over)
    case Clearing(call) =>
      var (s', call') := Act(s, call);
      (s', if call'.Returned? then Over else Clearing(call'))
    case Over => (s, Over)
  }

  function Go(w: World, site: Site, move: Move): Site {
    match move
    case Call(i) =>
      if i >= |site.calls| then site
      else
        var (s, p) := Act(site.store, site.calls[i]);
        Site(s, site.calls[i := p], site.readers)
    case Read(j) =>
      if j >= |site.readers| then site
      else
        var (s, r) := Take(w, site.store, site.readers[j]);
        Site(s, site.calls, site.readers[j := r])
    case Drop(keys) => site.(store := Forget(site.store, keys))
  }

  function Play(w: World, site: Site, moves: seq<Move>): Site
    decreases moves
  {
    if moves == [] then site else Play(w, Go(w, site, moves[0]), moves[1..])
  }

  ghost predicate AllOver(site: Site) {
    && (forall i :: 0 <= i < |site.calls| ==> site.calls[i].Returned?)
    && (forall j :: 0 <= j < |site.readers| ==> site.readers[j].Over?)
  }

  // ---- What calls and readers in flight are right about ----

  ghost predicate SoundCall(rows: Rows, p: Process) {
    && ColonFreeCall(p) && Truthful(rows, p)
    && (p.Committed? || p.Unlinked? ==> p.id !in rows)
  }

  ghost predicate SoundReader(s: State, r: Reader) {
    match r
    case Asked(id, _) => ColonFree(id)
    case Loaded(id, row, _) => ColonFree(id) && (id in s.rows ==> SameFile(row, s.rows[id]))
    case Held(id, row, _) => ColonFree(id) && (id in s.rows ==> SameFile(row, s.rows[id]))
    case Fetched(id, _, raw) =>
      ColonFree(id) && (id in s.rows ==> s.rows[id].path in s.disk && raw == s.disk[s.rows[id].path])
    case Serving(_, _) => true
    case Clearing(call) => SoundCall(s.rows, call)
    case Over => true
  }

  /** Rows have their bytes, and what is cached of a file that exists is true of it. */
  ghost predicate TrueSoFar(s: State) {
    && (forall id :: id in s.rows ==> s.rows[id].path in s.disk)
    && (forall id :: id in s.rows && ColonFree(id) ==> CoherentAt(s, id))
  }

  ghost predicate Sound(site: Site) {
    && TrueSoFar(site.store)
    && (forall i :: 0 <= i < |site.calls| ==> SoundCall(site.store.rows, site.calls[i]))
    && (forall j :: 0 <= j < |site.readers| ==> SoundReader(site.store, site.readers[j]))
  }

  /** Rows and files only disappear, and what stays stays the same but for access counts. */
  ghost predicate Dwindles(s: State, s': State) {
    && (forall id :: id in s'.rows ==> id in s.rows && SameFile(s'.rows[id], s.rows[id]))
    && (forall path :: path in s'.disk ==> path in s.disk && s'.disk[path] == s.disk[path])
    && (forall id :: id in s'.rows && s.rows[id].path in s.disk ==> s.rows[id].path in s'.disk)
  }

  lemma ActDwindles(s: State, p: Process)
    requires SoundCall(s.rows, p) && TrueSoFar(s)
    ensures Dwindles(s, Act(s, p).0) && SoundCall(Act(s, p).0.rows, Act(s, p).1)
  {
    hide OtherReferences, MetaKey, ContentKey, CachedMeta, CachedContent, CoherentAt;
    if p.Selected? {
      CountIsTruthful(s.rows, p.path, p.id);
    }
  }

  lemma ActKeepsTrue(s: State, p: Process)
    requires SoundCall(s.rows, p) && TrueSoFar(s)
    ensures TrueSoFar(Act(s, p).0)
  {
  }

  lemma CalledIsTruthful(rows: Rows)
    ensures forall id :: Truthful(rows, Called(id))
  {
  }

  lemma CountingDwindles(w: World, s: State, row: Row, raw: Bytes)
    ensures Dwindles(s, Deliver(w, s, row, raw).0)
  {
  }

  lemma CachingDwindles(s: State, s': State)
    requires s'.disk == s.disk && s'.rows == s.rows
    ensures Dwindles(s, s')
  {
  }

  /** What a reader that has just asked is told is true of a file that exists. */
  lemma LoadedIsTrue(s: State, r: Reader)
    requires TrueSoFar(s) && SoundReader(s, r)
    ensures r.Asked? && r.id in s.rows ==>
      && SameFile(s.rows[r.id], s.rows[r.id])
      && (CachedMeta(s.cache, r.id).Some? ==> SameFile(CachedMeta(s.cache, r.id).value, s.rows[r.id]))
    ensures forall id :: id in s.rows ==> s.rows[id].path in s.disk
  {
  }

  lemma TakeDwindles(w: World, s: State, r: Reader)
    requires SoundReader(s, r) && TrueSoFar(s)
    ensures Dwindles(s, Take(w, s, r).0) && SoundReader(Take(w, s, r).0, Take(w, s, r).1)
  {
    hide Act, Truthful, Dwindles, MetaKey, ContentKey, CachedMeta, CachedContent, PutMeta, PutContent, Deliver, TrueSoFar, SameFile;
    CalledIsTruthful(s.rows);
    if r.Clearing? {
      ActDwindles(s, r.call);
    } else if r.Serving? {
      CountingDwindles(w, s, r.row, r.raw);
    } else {
      CachingDwindles(s, Take(w, s, r).0);
      LoadedIsTrue(s, r);
      if r.Held? && r.id in s.rows {
        SameFileFields(r.row, s.rows[r.id]);
      }
    }
  }

  lemma TakeKeepsTrue(w: World, s: State, r: Reader)
    requires SoundReader(s, r) && TrueSoFar(s)
    ensures TrueSoFar(Take(w, s, r).0)
  {
    hide Act, SoundCall, MetaKey, ContentKey, CachedMeta, CachedContent, PutMeta, PutContent, Decode;
    var s' := Take(w, s, r).0;
    if r.Clearing? {
      ActKeepsTrue(s, r.call);
    } else {
      forall id | id in s'.rows && ColonFree(id)
        ensures CoherentAt(s', id)
      {
        assert CoherentAt(s, id);
        if r.Loaded? {
          PutMetaView(s.cache, r.id, r.row, id);
        } else if r.Fetched? {
          PutContentView(s.cache, r.id, r.raw, id);
        }
      }
    }
  }

  lemma DropKeepsTrue(s: State, keys: set<string>)
    requires TrueSoFar(s)
    ensures TrueSoFar(Forget(s, keys)) && Dwindles(s, Forget(s, keys))
  {
  }

  lemma MoveIsSound(w: World, site: Site, move: Move)
    requires Sound(site)
    ensures Sound(Go(w, site, move)) && Dwindles(site.store, Go(w, site, move).store)
  {
    hide Act, Take, TrueSoFar, SoundReader, SoundCall, Dwindles, Forget;
    var s, site' := site.store, Go(w, site, move);
    NothingDwindles(s);
    match move
    case Call(i) =>
      if i < |site.calls| {
        ActDwindles(s, site.calls[i]);
        ActKeepsTrue(s, site.calls[i]);
        OthersStaySound(site, site', {i}, {});
      }
    case Read(j) =>
      if j < |site.readers| {
        TakeDwindles(w, s, site.readers[j]);
        TakeKeepsTrue(w, s, site.readers[j]);
        OthersStaySound(site, site', {}, {j});
      }
    case Drop(keys) =>
      DropKeepsTrue(s, keys);
      OthersStaySound(site, site', {}, {});
  }

  lemma NothingDwindles(s: State)
    ensures Dwindles(s, s)
  {
  }

  /** Whoever does not move stays right. */
  lemma OthersStaySound(site: Site, site': Site, movingCalls: set<nat>, movingReaders: set<nat>)
    requires Sound(site) && Dwindles(site.store, site'.store)
    requires |site'.calls| == |site.calls| && |site'.readers| == |site.readers|
    requires forall i :: 0 <= i < |site.calls| && i !in movingCalls ==> site'.calls[i] == site.calls[i]
    requires forall j :: 0 <= j < |site.readers| && j !in movingReaders ==> site'.readers[j] == site.readers[j]
    ensures forall i :: 0 <= i < |site.calls| && i !in movingCalls ==> SoundCall(site'.store.rows, site'.calls[i])
    ensures forall j :: 0 <= j < |site.readers| && j !in movingReaders ==> SoundReader(site'.store, site'.readers[j])
  {
  }

  // ---- Readers that come too late ----

  /** A reader that is going to delete this file: its deadline has passed, or the deleting has begun. */
  predicate ReaderDeletes(s: State, r: Reader, id: FileId) {
    match r
    case Asked(id', now) => id' == id && id in s.rows && ExpiredAt(s.rows[id], now)
    case Loaded(id', row, now) => id' == id && ExpiredAt(row, now)
    case Held(id', row, now) => id' == id && ExpiredAt(row, now)
    case Clearing(call) => WillDelete(call, id)
    case _ => false
  }

  ghost predicate OthersDelete(site: Site, j: nat, id: FileId) {
    || (exists i :: 0 <= i < |site.calls| && WillDelete(site.calls[i], id))
    || (exists k :: 0 <= k < |site.readers| && k != j && ReaderDeletes(site.store, site.readers[k], id))
  }

  /** The file is gone when everyone but reader `j` is over. */
  ghost predicate Gone(site: Site, j: nat, id: FileId) {
    id !in site.store.rows || OthersDelete(site, j, id)
  }

  /** Reading these bytes from disk puts them into the cache. */
  predicate Fetches(s: State, row: Row, now: int) {
    !ExpiredAt(row, now) && row.path in s.disk && |s.disk[row.path]| <= MAX_CACHE_SIZE
  }

  /** A reader that may cache something of a file after the file is gone. */
  ghost predicate Late(site: Site, j: nat)
    requires j < |site.readers|
  {
    match site.readers[j]
    case Asked(id, now) =>
      if id in site.store.rows then OthersDelete(site, j, id)
      else CachedMeta(site.store.cache, id).Some? && Fetches(site.store, CachedMeta(site.store.cache, id).value, now)
    case Loaded(id, _, _) => Gone(site, j, id)
    case Held(id, row, now) => Gone(site, j, id) && Fetches(site.store, row, now)
    case Fetched(id, _, raw) => Gone(site, j, id) && |raw| <= MAX_CACHE_SIZE
    case _ => false
  }

  ghost predicate NoneLate(site: Site) {
    forall j :: 0 <= j < |site.readers| ==> !Late(site, j)
  }

  predicate Invalidates(p: Process, id: FileId) {
    (p.Committed? || p.Unlinked?) && p.id == id
  }

  ghost predicate InvalidationDue(site: Site, id: FileId) {
    || (exists i :: 0 <= i < |site.calls| && Invalidates(site.calls[i], id))
    || (exists k :: 0 <= k < |site.readers| && site.readers[k].Clearing? && Invalidates(site.readers[k].call, id))
  }

  /** The cache is coherent but for files whose invalidation is on its way. */
  ghost predicate CoherentButDue(site: Site) {
    forall id :: ColonFree(id) ==> CoherentAt(site.store, id) || InvalidationDue(site, id)
  }

  // ---- Without late readers the cache ends up coherent ----

  lemma ReaderDeletesBack(w: World, s: State, r: Reader, id: FileId)
    requires SoundReader(s, r) && TrueSoFar(s) && id in s.rows && ReaderDeletes(Take(w, s, r).0, Take(w, s, r).1, id)
    ensures ReaderDeletes(s, r, id)
  {
    hide MetaKey, ContentKey, CachedMeta, CachedContent, PutMeta, PutContent, Deliver, Truthful, OtherReferences, Invalidate;
    if r.Asked? && r.id == id {
      assert CoherentAt(s, id);
    } else if r.Held? && r.id == id {
      SameFileFields(r.row, s.rows[id]);
    }
  }

  lemma WaitingReaderDeletesBack(s: State, s': State, r: Reader, id: FileId)
    requires Dwindles(s, s') && ReaderDeletes(s', r, id)
    ensures ReaderDeletes(s, r, id)
  {
  }

  lemma OthersDeleteBack(w: World, site: Site, move: Move, j: nat, id: FileId)
    requires Sound(site) && id in site.store.rows && OthersDelete(Go(w, site, move), j, id)
    ensures OthersDelete(site, j, id)
  {
    hide Take, ReaderDeletes, TrueSoFar, SoundReader, SoundCall, Dwindles, OtherReferences, Invalidate, Forget;
    MoveIsSound(w, site, move);
    var site' := Go(w, site, move);
    if i :| 0 <= i < |site'.calls| && WillDelete(site'.calls[i], id) {
      assert WillDelete(site.calls[i], id);
    } else {
      var k :| 0 <= k < |site'.readers| && k != j && ReaderDeletes(site'.store, site'.readers[k], id);
      if move == Read(k) {
        ReaderDeletesBack(w, site.store, site.readers[k], id);
      } else {
        WaitingReaderDeletesBack(site.store, site'.store, site.readers[k], id);
      }
      assert ReaderDeletes(site.store, site.readers[k], id);
    }
  }

  /** A row only goes by the commit of a call or of a clearing reader. */
  lemma WhoDeleted(w: World, site: Site, move: Move, id: FileId)
    requires Sound(site) && id in site.store.rows && id !in Go(w, site, move).store.rows
    ensures (move.Call? && move.i < |site.calls| && site.calls[move.i].Counted? && site.calls[move.i].id == id)
         || (move.Read? && move.j < |site.readers| && site.readers[move.j].Clearing?
             && site.readers[move.j].call.Counted? && site.readers[move.j].call.id == id)
  {
    hide MetaKey, ContentKey, CachedMeta, CachedContent, PutMeta, PutContent, Decode, Truthful, OtherReferences, Invalidate;
  }

  lemma GoneBack(w: World, site: Site, move: Move, j: nat, id: FileId)
    requires Sound(site) && Gone(Go(w, site, move), j, id)
    requires move == Read(j) ==> j < |site.readers| && !site.readers[j].Clearing?
    ensures Gone(site, j, id)
  {
    hide Go, Take, Act, Sound, Invalidate;
    if id in site.store.rows {
      if id in Go(w, site, move).store.rows {
        OthersDeleteBack(w, site, move, j, id);
      } else {
        WhoDeleted(w, site, move, id);
        assert move.Call? ==> WillDelete(site.calls[move.i], id);
        assert move.Read? ==> ReaderDeletes(site.store, site.readers[move.j], id);
      }
    }
  }

  lemma FetchesBack(s: State, s': State, row: Row, now: int)
    requires Dwindles(s, s') && Fetches(s', row, now)
    ensures Fetches(s, row, now)
  {
  }

  /** Metadata of a missing file only appears by a reader that loaded it. */
  lemma WhoCached(w: World, site: Site, move: Move, id: FileId)
    requires Sound(site) && ColonFree(id) && CachedMeta(Go(w, site, move).store.cache, id).Some?
    ensures CachedMeta(Go(w, site, move).store.cache, id) == CachedMeta(site.store.cache, id)
         || (move.Read? && move.j < |site.readers| && site.readers[move.j].Loaded? && site.readers[move.j].id == id)
  {
    hide MetaKey, ContentKey, Decode, OtherReferences, PutMeta, PutContent, Invalidate, Truthful, TrueSoFar;
    var c := site.store.cache;
    match move
    case Call(i) =>
      if i < |site.calls| && site.calls[i].Unlinked? {
        assert SoundCall(site.store.rows, site.calls[i]);
        InvalidateView(c, site.calls[i].id, id);
      }
    case Read(j) =>
      if j < |site.readers| {
        var r := site.readers[j];
        assert SoundReader(site.store, r);
        if r.Clearing? && r.call.Unlinked? {
          InvalidateView(c, r.call.id, id);
        } else if r.Loaded? {
          PutMetaView(c, r.id, r.row, id);
        } else if r.Fetched? {
          PutContentView(c, r.id, r.raw, id);
        }
      }
    case Drop(keys) =>
  }

  /** Nobody becomes late. */
  lemma NobodyBecomesLate(w: World, site: Site, move: Move, j: nat)
    requires Sound(site) && NoneLate(site) && j < |site.readers|
    ensures j < |Go(w, site, move).readers| && !Late(Go(w, site, move), j)
  {
    if move == Read(j) {
      ReaderStaysInTime(w, site, j);
    } else {
      WaiterStaysInTime(w, site, move, j);
    }
  }

  lemma WaiterStaysInTime(w: World, site: Site, move: Move, j: nat)
    requires Sound(site) && NoneLate(site) && j < |site.readers| && move != Read(j)
    ensures j < |Go(w, site, move).readers| && !Late(Go(w, site, move), j)
  {
    hide Take, Act, Sound, SoundReader, Dwindles, Fetches, CachedMeta, OthersDelete, Forget;
    var site', r := Go(w, site, move), site.readers[j];
    assert !Late(site, j);
    MoveIsSound(w, site, move);
    assert SoundReader(site.store, r) by { EachReaderIsSound(site, j); }
    if Late(site', j) {
      if !r.Asked? {
        GoneBack(w, site, move, j, r.id);
      }
      if r.Held? {
        FetchesBack(site.store, site'.store, r.row, r.now);
      }
      if r.Asked? {
        AskerStaysInTime(w, site, move, j);
      }
    }
  }

  lemma EachReaderIsSound(site: Site, j: nat)
    requires Sound(site) && j < |site.readers|
    ensures SoundReader(site.store, site.readers[j]) && TrueSoFar(site.store)
  {
  }

  lemma AskerStaysInTime(w: World, site: Site, move: Move, j: nat)
    requires Sound(site) && NoneLate(site) && j < |site.readers| && move != Read(j) && site.readers[j].Asked?
    ensures j < |Go(w, site, move).readers| && !Late(Go(w, site, move), j)
  {
    hide Take, Act, Sound, SoundReader, Dwindles, Fetches, CachedMeta, OthersDelete, Forget;
    var site', r := Go(w, site, move), site.readers[j];
    assert !Late(site, j);
    assert move.Read? && move.j < |site.readers| ==> !Late(site, move.j);
    MoveIsSound(w, site, move);
    RowsOnlyGo(site.store, site'.store, r.id);
    if Late(site', j) {
      GoneBack(w, site, move, j, r.id);
      if r.id !in site.store.rows {
        AskedIsColonFree(site, j);
        WhoCached(w, site, move, r.id);
        FetchesBack(site.store, site'.store, CachedMeta(site'.store.cache, r.id).value, r.now);
      }
    }
  }

  lemma AskedIsColonFree(site: Site, j: nat)
    requires Sound(site) && j < |site.readers| && site.readers[j].Asked?
    ensures ColonFree(site.readers[j].id)
  {
  }

  lemma RowsOnlyGo(s: State, s': State, id: FileId)
    requires Dwindles(s, s')
    ensures id in s'.rows ==> id in s.rows
  {
  }

  lemma ReaderStaysInTime(w: World, site: Site, j: nat)
    requires Sound(site) && NoneLate(site) && j < |site.readers|
    ensures j < |Go(w, site, Read(j)).readers| && !Late(Go(w, site, Read(j)), j)
  {
    hide Act, Sound, TrueSoFar, SoundCall, Dwindles, OthersDelete, MetaKey, ContentKey, CachedMeta, CachedContent, PutMeta, PutContent, Deliver;
    var site', r := Go(w, site, Read(j)), site.readers[j];
    assert !Late(site, j);
    MoveIsSound(w, site, Read(j));
    EachReaderIsSound(site, j);
    if r.Asked? && r.id in site.store.rows && CachedMeta(site.store.cache, r.id).Some? {
      CachedIsTrue(site.store, r.id);
    }
    if Late(site', j) {
      GoneBack(w, site, Read(j), j, r.id);
    }
  }

  lemma CachedIsTrue(s: State, id: FileId)
    requires TrueSoFar(s) && id in s.rows && ColonFree(id) && CachedMeta(s.cache, id).Some?
    ensures SameFile(CachedMeta(s.cache, id).value, s.rows[id])
  {
  }

  /** The entries of a missing file are none, or about to be invalidated. */
  lemma MissingStaysDue(w: World, site: Site, move: Move, id: FileId)
    requires Sound(site) && NoneLate(site) && CoherentButDue(site) && ColonFree(id) && id !in Go(w, site, move).store.rows
    ensures CoherentAt(Go(w, site, move).store, id) || InvalidationDue(Go(w, site, move), id)
  {
    if id in site.store.rows {
      DeletedIsDue(w, site, move, id);
    } else {
      match move
      case Call(i) => CallKeepsDue(w, site, i, id);
      case Read(j) => ReaderKeepsDue(w, site, j, id);
      case Drop(keys) => DropKeepsDue(w, site, keys, id);
    }
  }

  lemma DeletedIsDue(w: World, site: Site, move: Move, id: FileId)
    requires Sound(site) && id in site.store.rows && id !in Go(w, site, move).store.rows
    ensures InvalidationDue(Go(w, site, move), id)
  {
    hide Sound;
    WhoDeleted(w, site, move, id);
    var site' := Go(w, site, move);
    if move.Call? {
      assert Invalidates(site'.calls[move.i], id);
    } else {
      assert Invalidates(site'.readers[move.j].call, id);
    }
  }

  lemma DropKeepsDue(w: World, site: Site, keys: set<string>, id: FileId)
    requires CoherentButDue(site) && ColonFree(id) && id !in site.store.rows
    ensures CoherentAt(Go(w, site, Drop(keys)).store, id) || InvalidationDue(Go(w, site, Drop(keys)), id)
  {
  }

  /** What stays due when one process acts: only the invalidation itself ends it. */
  lemma ActKeepsDue(s: State, p: Process, id: FileId)
    requires SoundCall(s.rows, p) && ColonFree(id) && id !in s.rows
    ensures var (s', p') := Act(s, p);
            && (CoherentAt(s, id) ==> CoherentAt(s', id))
            && (Invalidates(p, id) ==> Invalidates(p', id) || CoherentAt(s', id))
  {
  }

  lemma CallKeepsDue(w: World, site: Site, i: nat, id: FileId)
    requires Sound(site) && CoherentButDue(site) && ColonFree(id) && id !in site.store.rows
    ensures CoherentAt(Go(w, site, Call(i)).store, id) || InvalidationDue(Go(w, site, Call(i)), id)
  {
    hide Act, CoherentAt, TrueSoFar, SoundCall, SoundReader;
    assert CoherentAt(site.store, id) || InvalidationDue(site, id);
    if i < |site.calls| {
      var site' := Go(w, site, Call(i));
      ActKeepsDue(site.store, site.calls[i], id);
      if !CoherentAt(site'.store, id) {
        if k :| 0 <= k < |site.calls| && Invalidates(site.calls[k], id) {
          assert Invalidates(site'.calls[k], id);
        } else {
          var k :| 0 <= k < |site.readers| && site.readers[k].Clearing? && Invalidates(site.readers[k].call, id);
          assert site'.readers[k] == site.readers[k];
        }
      }
    }
  }

  /** A reader in time writes nothing about a missing file, and ends no invalidation but its own. */
  lemma TakeKeepsDue(w: World, site: Site, j: nat, id: FileId)
    requires Sound(site) && NoneLate(site) && ColonFree(id) && id !in site.store.rows && j < |site.readers|
    ensures var (s', r') := Take(w, site.store, site.readers[j]);
            var r := site.readers[j];
            && (CoherentAt(site.store, id) ==> CoherentAt(s', id))
            && (r.Clearing? && Invalidates(r.call, id) ==>
                  (r'.Clearing? && Invalidates(r'.call, id)) || CoherentAt(s', id))
  {
    hide Act, MetaKey, ContentKey, CachedMeta, CachedContent, PutMeta, PutContent, SameFile, TrueSoFar, SoundCall, Decode, Truthful, OthersDelete;
    var s, r := site.store, site.readers[j];
    EachReaderIsSound(site, j);
    assert !Late(site, j);
    if r.Clearing? {
      ActKeepsDue(s, r.call, id);
    } else if r.Loaded? {
      PutMetaView(s.cache, r.id, r.row, id);
    } else if r.Fetched? {
      PutContentView(s.cache, r.id, r.raw, id);
    }
  }

  lemma ReaderKeepsDue(w: World, site: Site, j: nat, id: FileId)
    requires Sound(site) && NoneLate(site) && CoherentButDue(site) && ColonFree(id) && id !in site.store.rows
    ensures CoherentAt(Go(w, site, Read(j)).store, id) || InvalidationDue(Go(w, site, Read(j)), id)
  {
    hide Take, CoherentAt, Sound, NoneLate;
    assert CoherentAt(site.store, id) || InvalidationDue(site, id);
    if j < |site.readers| {
      var site' := Go(w, site, Read(j));
      TakeKeepsDue(w, site, j, id);
      if !CoherentAt(site'.store, id) {
        if k :| 0 <= k < |site.calls| && Invalidates(site.calls[k], id) {
          assert Invalidates(site'.calls[k], id);
        } else {
          var k :| 0 <= k < |site.readers| && site.readers[k].Clearing? && Invalidates(site.readers[k].call, id);
          assert site'.readers[k].Clearing? && Invalidates(site'.readers[k].call, id);
        }
      }
    }
  }

  lemma MoveInTime(w: World, site: Site, move: Move)
    requires Sound(site) && NoneLate(site) && CoherentButDue(site)
    ensures var site' := Go(w, site, move);
            Sound(site') && NoneLate(site') && CoherentButDue(site')
  {
    hide Go, Late, CoherentAt, InvalidationDue, SoundCall, SoundReader, Dwindles;
    var site' := Go(w, site, move);
    MoveIsSound(w, site, move);
    SameNumber(w, site, move);
    forall j | 0 <= j < |site'.readers|
      ensures !Late(site', j)
    {
      NobodyBecomesLate(w, site, move, j);
    }
    forall id | ColonFree(id)
      ensures CoherentAt(site'.store, id) || InvalidationDue(site', id)
    {
      if id !in site'.store.rows {
        MissingStaysDue(w, site, move, id);
      }
    }
  }

  lemma SameNumber(w: World, site: Site, move: Move)
    ensures |Go(w, site, move).calls| == |site.calls| && |Go(w, site, move).readers| == |site.readers|
  {
  }

  lemma {:induction false} PlayInTime(w: World, site: Site, moves: seq<Move>)
    requires Sound(site) && NoneLate(site) && CoherentButDue(site)
    ensures CoherentButDue(Play(w, site, moves))
    decreases moves
  {
    hide Go, Sound, NoneLate, CoherentButDue;
    if moves != [] {
      MoveInTime(w, site, moves[0]);
      PlayInTime(w, Go(w, site, moves[0]), moves[1..]);
    }
  }
}
