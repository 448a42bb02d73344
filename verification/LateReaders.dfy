/**
 Late readers: each of them leaves the cache wrong under some schedule, so that being free of them is
 exactly the condition under which reads among deletes end with a coherent cache.
 */
module LateReaders {
  import opened Pipeline
  import opened Cache
  import opened Store
  import opened Coherence
  import opened Deletes
  import opened Races
  import opened Readers

  // ---- The file of a waiting reader stays on its way out ----

  lemma ReaderDeletesOn(w: World, s: State, r: Reader, id: FileId)
    requires SoundReader(s, r) && TrueSoFar(s) && ReaderDeletes(s, r, id) && id in Take(w, s, r).0.rows
    ensures ReaderDeletes(Take(w, s, r).0, Take(w, s, r).1, id)
  {
    hide MetaKey, ContentKey, CachedMeta, CachedContent, PutMeta, PutContent, Truthful, OtherReferences, Invalidate, Decode;
    if r.Asked? {
      assert CoherentAt(s, id);
    }
  }

  lemma WaitingReaderDeletesOn(s: State, s': State, r: Reader, id: FileId)
    requires Dwindles(s, s') && ReaderDeletes(s, r, id) && id in s'.rows
    ensures ReaderDeletes(s', r, id)
  {
  }

  lemma GoneStays(w: World, site: Site, move: Move, j: nat, id: FileId)
    requires Sound(site) && Gone(site, j, id) && move != Read(j)
    ensures Gone(Go(w, site, move), j, id)
  {
    hide Take, ReaderDeletes, TrueSoFar, SoundReader, SoundCall, Dwindles, OtherReferences, Invalidate, Forget;
    MoveIsSound(w, site, move);
    var site' := Go(w, site, move);
    RowsOnlyGo(site.store, site'.store, id);
    if id in site'.store.rows {
      if i :| 0 <= i < |site.calls| && WillDelete(site.calls[i], id) {
        assert WillDelete(site'.calls[i], id);
      } else {
        var k :| 0 <= k < |site.readers| && k != j && ReaderDeletes(site.store, site.readers[k], id);
        if move == Read(k) {
          ReaderDeletesOn(w, site.store, site.readers[k], id);
        } else {
          WaitingReaderDeletesOn(site.store, site'.store, site.readers[k], id);
        }
        assert ReaderDeletes(site'.store, site'.readers[k], id);
      }
    }
  }

  /** Reader `j` stands still while its file goes. */
  ghost predicate Waits(site: Site, j: nat, r: Reader, id: FileId) {
    Sound(site) && j < |site.readers| && site.readers[j] == r && Gone(site, j, id)
  }

  lemma StillWaits(w: World, site: Site, move: Move, j: nat, r: Reader, id: FileId)
    requires Waits(site, j, r, id) && move != Read(j)
    ensures Waits(Go(w, site, move), j, r, id)
  {
    hide Sound, Gone, Act, Take;
    MoveIsSound(w, site, move);
    GoneStays(w, site, move, j, id);
  }

  // ---- Everyone else finishes ----

  lemma OneMove(w: World, site: Site, move: Move, rest: seq<Move>)
    ensures Play(w, site, [move] + rest) == Play(w, Go(w, site, move), rest)
  {
  }

  lemma {:induction false} PlayInTwo(w: World, site: Site, a: seq<Move>, b: seq<Move>)
    ensures Play(w, site, a + b) == Play(w, Play(w, site, a), b)
    decreases a
  {
    hide Go;
    if a == [] {
      assert a + b == b;
    } else {
      assert (a + b)[0] == a[0] && (a + b)[1..] == a[1..] + b;
      PlayInTwo(w, Go(w, site, a[0]), a[1..], b);
    }
  }

  lemma NoMoves(w: World, site: Site)
    ensures Play(w, site, []) == site
  {
  }

  lemma {:induction false} FinishCall(w: World, site: Site, i: nat, j: nat, r: Reader, id: FileId) returns (moves: seq<Move>)
    requires Waits(site, j, r, id) && i < |site.calls|
    ensures var site' := Play(w, site, moves);
            && Waits(site', j, r, id) && site'.readers == site.readers && |site'.calls| == |site.calls|
            && site'.calls[i].Returned? && forall k :: 0 <= k < |site.calls| && k != i ==> site'.calls[k] == site.calls[k]
    decreases TurnsLeft(site.calls[i])
  {
    hide Waits, Play;
    if site.calls[i].Returned? {
      moves := [];
      NoMoves(w, site);
    } else {
      StillWaits(w, site, Call(i), j, r, id);
      var rest := FinishCall(w, Go(w, site, Call(i)), i, j, r, id);
      moves := [Call(i)] + rest;
      OneMove(w, site, Call(i), rest);
    }
  }

  lemma {:induction false} FinishCalls(w: World, site: Site, n: nat, j: nat, r: Reader, id: FileId) returns (moves: seq<Move>)
    requires Waits(site, j, r, id) && n <= |site.calls|
    ensures var site' := Play(w, site, moves);
            && Waits(site', j, r, id) && site'.readers == site.readers && |site'.calls| == |site.calls|
            && forall k :: 0 <= k < n ==> site'.calls[k].Returned?
    decreases n
  {
    hide Waits, Play;
    if n == 0 {
      moves := [];
      NoMoves(w, site);
    } else {
      var front := FinishCalls(w, site, n - 1, j, r, id);
      var last := FinishCall(w, Play(w, site, front), n - 1, j, r, id);
      moves := front + last;
      PlayInTwo(w, site, front, last);
    }
  }

  function MovesLeft(r: Reader): nat {
    match r
    case Asked(_, _) => 9
    case Loaded(_, _, _) => 8
    case Held(_, _, _) => 7
    case Fetched(_, _, _) => 2
    case Serving(_, _) => 1
    case Clearing(call) => 1 + TurnsLeft(call)
    case Over => 0
  }

  lemma TakeAdvances(w: World, s: State, r: Reader)
    requires !r.Over?
    ensures MovesLeft(Take(w, s, r).1) < MovesLeft(r)
  {
  }

  /** The state in which a reader ends when nobody else moves. */
  function Alone(w: World, s: State, r: Reader): State
    decreases MovesLeft(r)
  {
    if r.Over? then s
    else
      TakeAdvances(w, s, r);
      Alone(w, Take(w, s, r).0, Take(w, s, r).1)
  }

  /** Enough moves of one reader alone take it there. */
  lemma {:induction false} PlayAlone(w: World, s: State, r: Reader, n: nat)
    requires MovesLeft(r) <= n
    ensures Play(w, Site(s, [], [r]), seq(n, _ => Read(0))) == Site(Alone(w, s, r), [], [Over])
    decreases n
  {
    hide Play, Take;
    var site := Site(s, [], [r]);
    if n == 0 {
      assert r.Over?;
      NoMoves(w, site);
    } else {
      var (s', r') := Take(w, s, r);
      if r.Over? {
        OverStays(w, s);
      } else {
        TakeAdvances(w, s, r);
      }
      PlayAlone(w, s', r', n - 1);
      assert seq(n, _ => Read(0)) == [Read(0)] + seq(n - 1, _ => Read(0));
      OneMove(w, site, Read(0), seq(n - 1, _ => Read(0)));
      assert Go(w, site, Read(0)) == Site(s', [], [r']);
    }
  }

  lemma OverStays(w: World, s: State)
    ensures Take(w, s, Over) == (s, Over)
  {
  }

  /** A read whose steps nobody comes between, and during which the cache drops nothing, is the sequential read. */
  lemma UninterruptedRead(w: World, s: State, id: FileId, now: int)
    ensures Play(w, Site(s, [], [Asked(id, now)]), seq(9, _ => Read(0)))
         == Site(GetFile(w, s, id, now, {}).0, [], [Over])
  {
    hide Play, Deliver, PutMeta, PutContent, CachedMeta, CachedContent;
    PlayAlone(w, s, Asked(id, now), 9);
    assert Evict(s.cache, {}) == s.cache && forall c: Backend :: Evict(c, {}) == c;
    var (s1, meta) := LoadMeta(s, id);
    if meta.Ok? {
      AloneHeld(w, s1, id, meta.value, now);
    }
  }

  lemma AloneHeld(w: World, s: State, id: FileId, row: Row, now: int)
    ensures Alone(w, s, Held(id, row, now))
         == if ExpiredAt(row, now) || (CachedContent(s.cache, id).None? && row.path !in s.disk) then DeleteFile(s, id).0
            else if CachedContent(s.cache, id).Some? then Deliver(w, s, row, CachedContent(s.cache, id).value).0
            else Deliver(w, s.(cache := PutContent(s.cache, id, s.disk[row.path])), row, s.disk[row.path]).0
  {
    hide Deliver, PutContent, CachedContent, DeleteFile, Alone;
    AloneTakes(w, s, Held(id, row, now));
    var (s', r) := Take(w, s, Held(id, row, now));
    AloneTakes(w, s', r);
    match r
    case Clearing(_) => AloneClearing(w, s, id);
    case Serving(_, _) => AloneTakes(w, Take(w, s', r).0, Over);
    case Fetched(_, _, _) =>
      var (s'', r') := Take(w, s', r);
      AloneTakes(w, s'', r');
      AloneTakes(w, Take(w, s'', r').0, Over);
  }

  lemma AloneTakes(w: World, s: State, r: Reader)
    ensures Alone(w, s, r) == if r.Over? then s else Alone(w, Take(w, s, r).0, Take(w, s, r).1)
  {
  }

  lemma AloneClearing(w: World, s: State, id: FileId)
    ensures Alone(w, s, Clearing(Called(id))) == DeleteFile(s, id).0
  {
    hide Invalidate, Alone;
    AloneTakes(w, s, Clearing(Called(id)));
    if id in s.rows {
      var path := s.rows[id].path;
      var n := |OtherReferences(s.rows, path, id)|;
      var s1 := s.(rows := s.rows - {id});
      var s2 := if n == 0 then s1.(disk := s1.disk - {path}) else s1;
      AloneTakes(w, s, Clearing(Selected(id, path)));
      AloneTakes(w, s, Clearing(Counted(id, path, n)));
      AloneTakes(w, s1, Clearing(Committed(id, path, n)));
      AloneTakes(w, s2, Clearing(Unlinked(id)));
      AloneTakes(w, s2.(cache := Invalidate(s2.cache, id)), Over);
    } else {
      AloneTakes(w, s, Over);
    }
  }

  lemma {:induction false} FinishReader(w: World, site: Site, i: nat, j: nat, r: Reader, id: FileId) returns (moves: seq<Move>)
    requires Waits(site, j, r, id) && i < |site.readers| && i != j
    ensures var site' := Play(w, site, moves);
            && Waits(site', j, r, id) && site'.calls == site.calls && |site'.readers| == |site.readers|
            && site'.readers[i].Over? && forall k :: 0 <= k < |site.readers| && k != i ==> site'.readers[k] == site.readers[k]
    decreases MovesLeft(site.readers[i])
  {
    hide Waits, Play, Take;
    if site.readers[i].Over? {
      moves := [];
      NoMoves(w, site);
    } else {
      StillWaits(w, site, Read(i), j, r, id);
      TakeAdvances(w, site.store, site.readers[i]);
      var rest := FinishReader(w, Go(w, site, Read(i)), i, j, r, id);
      moves := [Read(i)] + rest;
      OneMove(w, site, Read(i), rest);
    }
  }

  lemma {:induction false} FinishReaders(w: World, site: Site, n: nat, j: nat, r: Reader, id: FileId) returns (moves: seq<Move>)
    requires Waits(site, j, r, id) && n <= |site.readers|
    ensures var site' := Play(w, site, moves);
            && Waits(site', j, r, id) && site'.calls == site.calls && |site'.readers| == |site.readers|
            && forall k :: 0 <= k < n && k != j ==> site'.readers[k].Over?
    decreases n
  {
    hide Waits, Play;
    if n == 0 {
      moves := [];
      NoMoves(w, site);
    } else {
      moves := FinishReaders(w, site, n - 1, j, r, id);
      if n - 1 != j {
        var front := moves;
        var last := FinishReader(w, Play(w, site, front), n - 1, j, r, id);
        moves := front + last;
        PlayInTwo(w, site, front, last);
      }
    }
  }

  /** Everyone but reader `j` is over, and its file is gone. */
  ghost predicate Last(site: Site, j: nat, id: FileId) {
    && j < |site.readers| && ColonFree(id) && id !in site.store.rows
    && (forall i :: 0 <= i < |site.calls| ==> site.calls[i].Returned?)
    && (forall k :: 0 <= k < |site.readers| && k != j ==> site.readers[k].Over?)
  }

  lemma FinishOthers(w: World, site: Site, j: nat, r: Reader, id: FileId) returns (moves: seq<Move>)
    requires Waits(site, j, r, id) && ColonFree(id)
    ensures Last(Play(w, site, moves), j, id) && Play(w, site, moves).readers[j] == r
  {
    hide Play, Sound;
    var calls := FinishCalls(w, site, |site.calls|, j, r, id);
    var site1 := Play(w, site, calls);
    var readers := FinishReaders(w, site1, |site1.readers|, j, r, id);
    moves := calls + readers;
    PlayInTwo(w, site, calls, readers);
  }

  // ---- Then the late reader ----

  /** Something is cached of a file that is gone. */
  predicate Wrong(s: State, id: FileId) {
    ColonFree(id) && id !in s.rows && (CachedMeta(s.cache, id).Some? || CachedContent(s.cache, id).Some?)
  }

  lemma WrongIsIncoherent(s: State, id: FileId)
    requires Wrong(s, id)
    ensures !Coherent(s)
  {
  }

  /** A reader of this file that has its metadata already. */
  predicate OnlyServes(r: Reader, id: FileId) {
    match r
    case Held(id', _, _) => id' == id
    case Fetched(id', _, _) => id' == id
    case Serving(_, _) => true
    case Clearing(call) => call == Called(id)
    case Over => true
    case _ => false
  }

  /** The last reader, on a file that is gone, removes nothing from the cache. */
  lemma LastTake(w: World, s: State, r: Reader, id: FileId)
    requires Wrong(s, id)
    requires OnlyServes(r, id)
    ensures var (s', r') := Take(w, s, r);
            Wrong(s', id) && OnlyServes(r', id)
  {
  }

  lemma {:induction false} FinishLast(w: World, site: Site, j: nat, id: FileId) returns (moves: seq<Move>)
    requires Last(site, j, id) && Wrong(site.store, id)
    requires OnlyServes(site.readers[j], id)
    ensures AllOver(Play(w, site, moves)) && Wrong(Play(w, site, moves).store, id)
    decreases MovesLeft(site.readers[j])
  {
    hide Play, Take, Wrong;
    if site.readers[j].Over? {
      moves := [];
      NoMoves(w, site);
    } else {
      LastTake(w, site.store, site.readers[j], id);
      WrongIsGone(Take(w, site.store, site.readers[j]).0, id);
      TakeAdvances(w, site.store, site.readers[j]);
      var rest := FinishLast(w, Go(w, site, Read(j)), j, id);
      moves := [Read(j)] + rest;
      OneMove(w, site, Read(j), rest);
    }
  }

  lemma WrongIsGone(s: State, id: FileId)
    requires Wrong(s, id)
    ensures id !in s.rows
  {
  }

  /** Whether the schedule ends with everyone over and the cache wrong. */
  ghost predicate EndsWrong(w: World, site: Site, moves: seq<Move>) {
    AllOver(Play(w, site, moves)) && !Coherent(Play(w, site, moves).store)
  }

  /** A reader about to write what it has read: the others finish first. */
  lemma LateWriter(w: World, site: Site, j: nat) returns (moves: seq<Move>)
    requires Sound(site) && j < |site.readers| && Late(site, j) && (site.readers[j].Loaded? || site.readers[j].Fetched?)
    ensures EndsWrong(w, site, moves)
  {
    hide Play, Act, Deliver, Gone, Coherent, CoherentAt, MetaKey, ContentKey, CachedMeta, CachedContent, PutMeta, PutContent;
    var r, id := site.readers[j], site.readers[j].id;
    EachReaderIsSound(site, j);
    var others := FinishOthers(w, site, j, r, id);
    var site1 := Play(w, site, others);
    if r.Loaded? {
      PutMetaView(site1.store.cache, id, r.row, id);
    } else {
      PutContentView(site1.store.cache, id, r.raw, id);
    }
    var site2 := Go(w, site1, Read(j));
    assert Wrong(site2.store, id);
    var rest := FinishLast(w, site2, j, id);
    moves := others + ([Read(j)] + rest);
    PlayInTwo(w, site, others, [Read(j)] + rest);
    OneMove(w, site1, Read(j), rest);
    WrongIsIncoherent(Play(w, site, moves).store, id);
  }

  /** Nothing but the cache and one reader differs: the same files are going. */
  lemma SameGone(site: Site, site': Site, j: nat, id: FileId)
    requires Gone(site, j, id) && site'.store.rows == site.store.rows && site'.calls == site.calls
    requires |site'.readers| == |site.readers|
    requires forall k :: 0 <= k < |site.readers| && k != j ==> site'.readers[k] == site.readers[k]
    ensures Gone(site', j, id)
  {
  }

  lemma LateHolder(w: World, site: Site, j: nat) returns (moves: seq<Move>)
    requires Sound(site) && j < |site.readers| && Late(site, j) && site.readers[j].Held?
    ensures EndsWrong(w, site, moves)
  {
    hide Play, Sound, Gone, EndsWrong, MetaKey, ContentKey;
    var id := site.readers[j].id;
    var drop := Drop({ContentKey(id)});
    var site1 := Go(w, site, drop);
    var site2 := Go(w, site1, Read(j));
    MoveIsSound(w, site, drop);
    MoveIsSound(w, site1, Read(j));
    SameGone(site, site2, j, id);
    var rest := LateWriter(w, site2, j);
    moves := [drop] + ([Read(j)] + rest);
    OneMove(w, site, drop, [Read(j)] + rest);
    OneMove(w, site1, Read(j), rest);
    SameEnd(w, site, moves, site2, rest);
  }

  lemma SameEnd(w: World, site: Site, moves: seq<Move>, site': Site, moves': seq<Move>)
    requires Play(w, site, moves) == Play(w, site', moves') && EndsWrong(w, site', moves')
    ensures EndsWrong(w, site, moves)
  {
  }

  lemma LateAsker(w: World, site: Site, j: nat) returns (moves: seq<Move>)
    requires Sound(site) && j < |site.readers| && Late(site, j) && site.readers[j].Asked?
    ensures EndsWrong(w, site, moves)
  {
    hide Play, Sound, EndsWrong, MetaKey, ContentKey, OthersDelete, Fetches;
    var id := site.readers[j].id;
    if id in site.store.rows {
      var drop := Drop({MetaKey(id)});
      var site1 := Go(w, site, drop);
      var site2 := Go(w, site1, Read(j));
      MoveIsSound(w, site, drop);
      MoveIsSound(w, site1, Read(j));
      SameGone(site, site2, j, id);
      var rest := LateWriter(w, site2, j);
      moves := [drop] + ([Read(j)] + rest);
      OneMove(w, site, drop, [Read(j)] + rest);
      OneMove(w, site1, Read(j), rest);
      SameEnd(w, site, moves, site2, rest);
    } else {
      var site1 := Go(w, site, Read(j));
      MoveIsSound(w, site, Read(j));
      var rest := LateHolder(w, site1, j);
      moves := [Read(j)] + rest;
      OneMove(w, site, Read(j), rest);
      SameEnd(w, site, moves, site1, rest);
    }
  }

  // ---- The exact condition ----

  /**
   Reads among deletes, exactly. From any site whose calls and readers are right so far and whose cache is
   coherent but for invalidations on their way, every schedule of all their steps, with evictions at any
   moment, that runs them to their end leaves the cache coherent if and only if no reader is late: none is
   yet to cache something of a file that is gone, or that somebody else is going to delete.
   */
  lemma CoherentExactlyWhenNoneLate(w: World, site: Site)
    requires Sound(site) && CoherentButDue(site)
    ensures (forall moves :: AllOver(Play(w, site, moves)) ==> Coherent(Play(w, site, moves).store)) <==> NoneLate(site)
  {
    hide Play, Sound, Late;
    if NoneLate(site) {
      forall moves | AllOver(Play(w, site, moves))
        ensures Coherent(Play(w, site, moves).store)
      {
        PlayInTime(w, site, moves);
      }
    } else {
      var j :| 0 <= j < |site.readers| && Late(site, j);
      var moves := LateReader(w, site, j);
      assert AllOver(Play(w, site, moves)) && !Coherent(Play(w, site, moves).store);
    }
  }

  lemma LateReader(w: World, site: Site, j: nat) returns (moves: seq<Move>)
    requires Sound(site) && j < |site.readers| && Late(site, j)
    ensures EndsWrong(w, site, moves)
  {
    hide Sound, EndsWrong, Gone, Fetches;
    match site.readers[j]
    case Asked(_, _) => moves := LateAsker(w, site, j);
    case Held(_, _, _) => moves := LateHolder(w, site, j);
    case _ => moves := LateWriter(w, site, j);
  }

  /** Nothing has begun: calls and readers of colon-free buckets, on an orderly store. */
  ghost predicate Fresh(site: Site) {
    && Coherent(site.store) && (forall id :: id in site.store.rows ==> site.store.rows[id].path in site.store.disk)
    && (forall i :: 0 <= i < |site.calls| ==> site.calls[i].Called? && ColonFree(site.calls[i].id))
    && (forall j :: 0 <= j < |site.readers| ==> site.readers[j].Asked? && ColonFree(site.readers[j].id))
  }

  /**
   From the start: reads and deletes issued at once leave the cache coherent under every schedule if and
   only if no existing file that is read is deleted by somebody else.
   */
  lemma FreshReadsAmongDeletes(w: World, site: Site)
    requires Fresh(site)
    ensures (forall moves :: AllOver(Play(w, site, moves)) ==> Coherent(Play(w, site, moves).store))
       <==> forall j :: 0 <= j < |site.readers| && site.readers[j].id in site.store.rows ==>
              !OthersDelete(site, j, site.readers[j].id)
  {
    hide Play, OthersDelete, Coherent, CoherentAt, Fetches;
    FreshIsSound(site);
    CoherentExactlyWhenNoneLate(w, site);
    forall j | 0 <= j < |site.readers|
      ensures Late(site, j) <==> site.readers[j].id in site.store.rows && OthersDelete(site, j, site.readers[j].id)
    {
      if site.readers[j].id !in site.store.rows {
        MissingIsUncached(site.store, site.readers[j].id);
      }
    }
  }

  lemma FreshIsSound(site: Site)
    requires Fresh(site)
    ensures Sound(site) && CoherentButDue(site)
  {
  }

  lemma MissingIsUncached(s: State, id: FileId)
    requires Coherent(s) && ColonFree(id) && id !in s.rows
    ensures CachedMeta(s.cache, id).None?
  {
  }
}
