/**
 Any number of delete_file calls interleaved at the grain of their select, count, delete-and-commit,
 unlink and cache invalidation, and uploads between those steps. Handlers share the storage manager
 under a read lock only, so such interleavings do occur.
 */
module Deletes {
  import opened Base
  import opened Cache
  import opened Store
  import opened Integrity
  import opened Coherence

  /** How far one `delete_file` call has come. */
  datatype Process =
    | Called(id: FileId)
    | Selected(id: FileId, path: string)
    | Counted(id: FileId, path: string, others: nat)
    | Committed(id: FileId, path: string, others: nat)
    | Unlinked(id: FileId)
    | Returned

  datatype System = System(store: State, calls: seq<Process>)

  /** The next atomic action of one call. */
  function Act(s: State, p: Process): (State, Process) {
    match p
    case Called(id) => (s, if id in s.rows then Selected(id, s.rows[id].path) else Returned)
    case Selected(id, path) => (s, Counted(id, path, |OtherReferences(s.rows, path, id)|))
    case Counted(id, path, others) => (s.(rows := s.rows - {id}), Committed(id, path, others))
    case Committed(id, path, others) => (if others == 0 then s.(disk := s.disk - {path}) else s, Unlinked(id))
    case Unlinked(id) => (s.(cache := Invalidate(s.cache, id)), Returned)
    case Returned => (s, Returned)
  }

  function Advance(sys: System, i: nat): System {
    if i >= |sys.calls| then sys
    else
      var (s, p) := Act(sys.store, sys.calls[i]);
      System(s, sys.calls[i := p])
  }

  /** The system after the calls took turns as scheduled. */
  function Interleave(sys: System, schedule: seq<nat>): System
    decreases schedule
  {
    if schedule == [] then sys else Interleave(Advance(sys, schedule[0]), schedule[1..])
  }

  /** A call that has seen no other reference is right about it, up to its unlink. */
  ghost predicate Truthful(rows: Rows, p: Process) {
    match p
    case Counted(id, path, others) =>
      others == 0 ==> forall other :: other in rows && other != id ==> rows[other].path != path
    case Committed(id, path, others) =>
      others == 0 ==> forall other :: other in rows ==> rows[other].path != path
    case _ => true
  }

  ghost predicate AllTruthful(sys: System) {
    forall i :: 0 <= i < |sys.calls| ==> Truthful(sys.store.rows, sys.calls[i])
  }

  /** Rows only disappear, and every surviving row keeps its bytes. */
  ghost predicate Shrinks(s: State, s': State) {
    && s'.keys == s.keys && s'.buckets == s.buckets
    && forall id :: id in s'.rows ==>
         && id in s.rows && s'.rows[id] == s.rows[id]
         && (s.rows[id].path in s.disk ==>
               s.rows[id].path in s'.disk && s'.disk[s.rows[id].path] == s.disk[s.rows[id].path])
  }

  lemma CountIsTruthful(rows: Rows, path: string, id: FileId)
    ensures |OtherReferences(rows, path, id)| == 0 ==> forall other :: other in rows && other != id ==> rows[other].path != path
  {
    forall other | other in rows && other != id && rows[other].path == path
      ensures |OtherReferences(rows, path, id)| > 0
    {
      assert other in OtherReferences(rows, path, id);
    }
  }

  lemma ActIsSafe(sys: System, i: nat)
    requires AllTruthful(sys) && i < |sys.calls|
    ensures AllTruthful(Advance(sys, i)) && Shrinks(sys.store, Advance(sys, i).store)
  {
    hide OtherReferences, MetaKey, ContentKey;
    var p := sys.calls[i];
    assert Truthful(sys.store.rows, p);
    if p.Selected? {
      CountIsTruthful(sys.store.rows, p.path, p.id);
    }
    var sys' := Advance(sys, i);
    forall k | 0 <= k < |sys'.calls|
      ensures Truthful(sys'.store.rows, sys'.calls[k])
    {
      assert Truthful(sys.store.rows, sys.calls[k]);
    }
  }

  lemma {:induction false} InterleavingShrinks(sys: System, schedule: seq<nat>)
    requires AllTruthful(sys)
    ensures AllTruthful(Interleave(sys, schedule)) && Shrinks(sys.store, Interleave(sys, schedule).store)
    decreases schedule
  {
    if schedule != [] {
      hide Act;
      if schedule[0] < |sys.calls| {
        ActIsSafe(sys, schedule[0]);
      }
      InterleavingShrinks(Advance(sys, schedule[0]), schedule[1..]);
    }
  }

  ghost predicate JustCalled(sys: System) {
    forall i :: 0 <= i < |sys.calls| ==> sys.calls[i].Called?
  }

  /**
   Concurrent deletes are safe: however any number of calls interleave, every row that survives so far
   still has exactly its bytes, so integrity holds at every moment.
   */
  lemma InterleavedDeletesAreSafe(w: World, sys: System, schedule: seq<nat>)
    requires Intact(w, sys.store) && JustCalled(sys)
    ensures Intact(w, Interleave(sys, schedule).store) && Shrinks(sys.store, Interleave(sys, schedule).store)
  {
    TruthfulCallsAreSafe(w, sys, schedule);
    InterleavingShrinks(sys, schedule);
  }

  /**
   Exactly when calls that are already under way are safe: every schedule keeps every row's bytes if and
   only if each call that counted no other reference is still right about it.
   */
  lemma SafeExactlyWhenTruthful(w: World, sys: System)
    requires Intact(w, sys.store)
    ensures (forall schedule :: Intact(w, Interleave(sys, schedule).store)) <==> AllTruthful(sys)
  {
    if AllTruthful(sys) {
      forall schedule
        ensures Intact(w, Interleave(sys, schedule).store)
      {
        TruthfulCallsAreSafe(w, sys, schedule);
      }
    } else {
      var i :| 0 <= i < |sys.calls| && !Truthful(sys.store.rows, sys.calls[i]);
      LyingCallBreaks(w, sys, i);
    }
  }

  lemma TruthfulCallsAreSafe(w: World, sys: System, schedule: seq<nat>)
    requires Intact(w, sys.store) && AllTruthful(sys)
    ensures Intact(w, Interleave(sys, schedule).store)
  {
    InterleavingShrinks(sys, schedule);
    var s, s' := sys.store, Interleave(sys, schedule).store;
    forall id | id in s'.rows
      ensures RowIntact(w, s'.keys, s'.disk, s'.rows[id])
    {
      assert RowIntact(w, s.keys, s.disk, s.rows[id]);
    }
  }

  lemma LyingCallBreaks(w: World, sys: System, i: nat)
    requires i < |sys.calls| && !Truthful(sys.store.rows, sys.calls[i])
    ensures exists schedule :: !Intact(w, Interleave(sys, schedule).store)
  {
    var rows, p := sys.store.rows, sys.calls[i];
    var other :| other in rows && rows[other].path == p.path && (p.Counted? ==> other != p.id);
    var sys1 := Advance(sys, i);
    if p.Counted? {
      var sys2 := Advance(sys1, i);
      assert [i, i][1..] == [i] && Interleave(sys1, [i]) == sys2;
      assert Interleave(sys, [i, i]) == sys2;
      assert !RowIntact(w, sys2.store.keys, sys2.store.disk, sys2.store.rows[other]);
    } else {
      assert Interleave(sys, [i]) == sys1;
      assert !RowIntact(w, sys1.store.keys, sys1.store.disk, sys1.store.rows[other]);
    }
  }

  // ---- Schedules ----

  lemma {:induction false} InterleaveInTwo(sys: System, a: seq<nat>, b: seq<nat>)
    ensures Interleave(sys, a + b) == Interleave(Interleave(sys, a), b)
    decreases a
  {
    hide Advance;
    if a == [] {
      assert a + b == b;
    } else {
      assert (a + b)[0] == a[0] && (a + b)[1..] == a[1..] + b;
      InterleaveInTwo(Advance(sys, a[0]), a[1..], b);
    }
  }

  lemma OneTurn(sys: System, i: nat, rest: seq<nat>)
    ensures Interleave(sys, [i] + rest) == Interleave(Advance(sys, i), rest)
    ensures Interleave(sys, [i]) == Interleave(Advance(sys, i), [])
  {
  }

  lemma NoTurns(sys: System)
    ensures Interleave(sys, []) == sys
  {
  }

  /** How many turns a call still takes. */
  function TurnsLeft(p: Process): nat {
    match p
    case Called(_) => 5
    case Selected(_, _) => 4
    case Counted(_, _, _) => 3
    case Committed(_, _, _) => 2
    case Unlinked(_) => 1
    case Returned => 0
  }

  /** A call taking its turns to the end: its row is gone if it was yet to delete it. */
  lemma {:induction false} FinishOne(sys: System, i: nat) returns (turns: seq<nat>)
    requires i < |sys.calls|
    ensures var sys' := Interleave(sys, turns);
            && |sys'.calls| == |sys.calls| && sys'.calls[i].Returned?
            && (forall k :: 0 <= k < |sys.calls| && k != i ==> sys'.calls[k] == sys.calls[k])
            && sys'.store.rows == RowsWithout(sys.store.rows, sys.calls[i])
    decreases TurnsLeft(sys.calls[i])
  {
    hide OtherReferences, Invalidate, Interleave;
    if sys.calls[i].Returned? {
      turns := [];
      NoTurns(sys);
    } else {
      var rest := FinishOne(Advance(sys, i), i);
      turns := [i] + rest;
      OneTurn(sys, i, rest);
    }
  }

  /** The rows once a call is over. */
  function RowsWithout(rows: Rows, p: Process): Rows {
    if p.Called? || p.Selected? || p.Counted? then rows - {p.id} else rows
  }

  // ---- Uploads between the steps of deletes ----

  /** The path of the row an upload saves, if it saves one. */
  function SavedPath(w: World, s: State, u: Upload, ch: Chance): Option<string>
    requires Possible(w, s, u, ch)
  {
    if !ch.saves then None
    else match BranchOf(w, s, u, ch)
      case Reuse => None
      case Alias(existing) => Some(existing.path)
      case Write => if EncodeUpload(w, s, u, ch).Ok? then Some(PathOf(w.cfg, u.id)) else None
  }

  /** A call on its way from a count of zero to its unlink will remove the bytes at this path. */
  predicate Condemns(p: Process, id: FileId, path: string) {
    match p
    case Counted(id', path', others) => others == 0 && path' == path && id' != id
    case Committed(_, path', others) => others == 0 && path' == path
    case _ => false
  }

  /**
   Exactly which uploads are safe between the steps of deletes: every schedule of the remaining steps keeps
   all rows intact if and only if the upload takes no row's bytes and no call in flight has already
   condemned the path of the row it saves.
   */
  lemma UploadBetweenDeletes(w: World, sys: System, u: Upload, ch: Chance)
    requires w.Lawful() && Intact(w, sys.store) && AllTruthful(sys) && Possible(w, sys.store, u, ch)
    ensures var uploaded := System(StoreFile(w, sys.store, u, ch).0, sys.calls);
            var path := SavedPath(w, sys.store, u, ch);
            ((forall schedule :: Intact(w, Interleave(uploaded, schedule).store))
             <==> KeepsRows(w, sys.store, u, ch)
                  && (path.Some? ==> forall i :: 0 <= i < |sys.calls| ==> !Condemns(sys.calls[i], u.id, path.value)))
  {
    hide Intact, StoreFile, AllTruthful, SavedPath, KeepsRows, Act;
    var uploaded := System(StoreFile(w, sys.store, u, ch).0, sys.calls);
    UploadIntegrity(w, sys.store, u, ch);
    UploadKeepsTruth(w, sys, u, ch);
    assert Interleave(uploaded, []) == uploaded;
    if Intact(w, uploaded.store) {
      SafeExactlyWhenTruthful(w, uploaded);
    }
  }

  lemma UploadKeepsTruth(w: World, sys: System, u: Upload, ch: Chance)
    requires AllTruthful(sys) && Possible(w, sys.store, u, ch)
    ensures var path := SavedPath(w, sys.store, u, ch);
            (AllTruthful(System(StoreFile(w, sys.store, u, ch).0, sys.calls))
             <==> (path.Some? ==> forall i :: 0 <= i < |sys.calls| ==> !Condemns(sys.calls[i], u.id, path.value)))
  {
    hide EncodeUpload, PathOf, TempPath, MetaKey, ContentKey, PutMeta, PutContent, StoreFile, SavedPath, Condemns;
    var s' := StoreFile(w, sys.store, u, ch).0;
    var path := SavedPath(w, sys.store, u, ch);
    SavedRow(w, sys.store, u, ch);
    forall i | 0 <= i < |sys.calls|
      ensures Truthful(s'.rows, sys.calls[i]) <==> (path.Some? ==> !Condemns(sys.calls[i], u.id, path.value))
    {
      assert Truthful(sys.store.rows, sys.calls[i]);
      OneCallKeepsTruth(sys.store.rows, s'.rows, sys.calls[i], u.id, path);
    }
  }

  lemma SavedRow(w: World, s: State, u: Upload, ch: Chance)
    requires Possible(w, s, u, ch)
    ensures SavesOne(s.rows, StoreFile(w, s, u, ch).0.rows, u.id, SavedPath(w, s, u, ch))
  {
    hide EncodeUpload, PathOf, TempPath, MetaKey, ContentKey, PutMeta, PutContent;
  }

  /** No row is saved, or exactly this one, with this path. */
  predicate SavesOne(rows: Rows, rows': Rows, id: FileId, path: Option<string>) {
    match path
    case None => rows' == rows
    case Some(p) => id in rows' && rows'[id].path == p && rows' == rows[id := rows'[id]]
  }

  lemma OneCallKeepsTruth(rows: Rows, rows': Rows, p: Process, id: FileId, path: Option<string>)
    requires Truthful(rows, p) && SavesOne(rows, rows', id, path)
    ensures Truthful(rows', p) <==> (path.Some? ==> !Condemns(p, id, path.value))
  {
  }

  // ---- The cache under interleaved deletes ----

  /** A call between its commit and its invalidation. */
  ghost predicate Invalidating(sys: System, id: FileId) {
    exists i :: 0 <= i < |sys.calls| && (sys.calls[i].Committed? || sys.calls[i].Unlinked?) && sys.calls[i].id == id
  }

  ghost predicate CoherentSoFar(sys: System) {
    && forall id :: ColonFree(id) ==> CoherentAt(sys.store, id) || Invalidating(sys, id)
  }

  predicate ColonFreeCall(p: Process) {
    p.Returned? || ColonFree(p.id)
  }

  lemma ActKeepsCache(sys: System, i: nat)
    requires AllTruthful(sys) && CoherentSoFar(sys) && i < |sys.calls|
    requires forall k :: 0 <= k < |sys.calls| ==> ColonFreeCall(sys.calls[k])
    ensures CoherentSoFar(Advance(sys, i))
    ensures forall k :: 0 <= k < |sys.calls| ==> ColonFreeCall(Advance(sys, i).calls[k])
  {
    hide OtherReferences, MetaKey, ContentKey, CachedMeta, CachedContent, Invalidate, SameFile;
    ActIsSafe(sys, i);
    var p, sys' := sys.calls[i], Advance(sys, i);
    assert ColonFreeCall(p) && Truthful(sys.store.rows, p);
    forall id | ColonFree(id)
      ensures CoherentAt(sys'.store, id) || Invalidating(sys', id)
    {
      assert CoherentAt(sys.store, id) || Invalidating(sys, id);
      if p.Unlinked? {
        InvalidateView(sys.store.cache, p.id, id);
      }
      if Invalidating(sys, id) && !(p.Unlinked? && p.id == id) {
        var k :| 0 <= k < |sys.calls| && (sys.calls[k].Committed? || sys.calls[k].Unlinked?) && sys.calls[k].id == id;
        assert sys'.calls[k].Committed? || sys'.calls[k].Unlinked?;
        assert Invalidating(sys', id);
      } else if p.Counted? && p.id == id {
        assert sys'.calls[i].Committed? && sys'.calls[i].id == id;
        assert Invalidating(sys', id);
      }
    }
  }

  lemma {:induction false} InterleavingKeepsCache(sys: System, schedule: seq<nat>)
    requires AllTruthful(sys) && CoherentSoFar(sys)
    requires forall k :: 0 <= k < |sys.calls| ==> ColonFreeCall(sys.calls[k])
    ensures CoherentSoFar(Interleave(sys, schedule))
    decreases schedule
  {
    if schedule != [] {
      hide Act, CoherentSoFar, Truthful;
      if schedule[0] < |sys.calls| {
        ActIsSafe(sys, schedule[0]);
        ActKeepsCache(sys, schedule[0]);
      }
      InterleavingKeepsCache(Advance(sys, schedule[0]), schedule[1..]);
    }
  }

  /** Once every call has returned, the cache is coherent again. */
  lemma FinishedDeletesAreCoherent(sys: System, schedule: seq<nat>)
    requires Coherent(sys.store) && JustCalled(sys)
    requires forall k :: 0 <= k < |sys.calls| ==> ColonFreeCall(sys.calls[k])
    requires forall p :: p in Interleave(sys, schedule).calls ==> p.Returned?
    ensures Coherent(Interleave(sys, schedule).store)
  {
    InterleavingKeepsCache(sys, schedule);
    var sys' := Interleave(sys, schedule);
    forall i | 0 <= i < |sys'.calls|
      ensures sys'.calls[i].Returned?
    {
      assert sys'.calls[i] in sys'.calls;
    }
    forall id | ColonFree(id)
      ensures CoherentAt(sys'.store, id)
    {
      assert CoherentAt(sys'.store, id) || Invalidating(sys', id);
    }
  }

  // ---- What interleaving does cost ----

  /** A call run without interruption is `delete_file`. */
  lemma UninterruptedCall(s: State, id: FileId)
    requires id in s.rows
    ensures Interleave(System(s, [Called(id)]), [0, 0, 0, 0, 0]) == System(DeleteFile(s, id).0, [Returned])
  {
  }

  /** The first two turns of a call. */
  lemma SelectAndCount(s: State, id: FileId)
    requires id in s.rows
    ensures var path := s.rows[id].path;
            Interleave(System(s, [Called(id)]), [0, 0]) == System(s, [Counted(id, path, |OtherReferences(s.rows, path, id)|)])
  {
    hide OtherReferences, Interleave;
    var sys := System(s, [Called(id)]);
    OneTurn(sys, 0, [0]);
    OneTurn(Advance(sys, 0), 0, []);
    NoTurns(Advance(Advance(sys, 0), 0));
    assert [0] + [0] == [0, 0] && [0] + [] == [0];
  }

  /** The next two: its row goes, and the path it counted alone. */
  lemma CommitAndUnlink(s: State, id: FileId, path: string)
    ensures Interleave(System(s, [Counted(id, path, 0)]), [0, 0]).store == s.(rows := s.rows - {id}, disk := s.disk - {path})
  {
    hide OtherReferences, Interleave;
    var sys := System(s, [Counted(id, path, 0)]);
    OneTurn(sys, 0, [0]);
    OneTurn(Advance(sys, 0), 0, []);
    NoTurns(Advance(Advance(sys, 0), 0));
    assert [0] + [0] == [0, 0] && [0] + [] == [0];
  }

  /** One such upload: aliasing the file a delete has just counted alone. Its new row loses its bytes. */
  lemma AliasDuringDeleteBreaks(w: World, s: State, id: FileId, u: Upload, ch: Chance)
    requires Possible(w, s, u, ch) && w.cfg.dedup && ch.duplicate == Some(id) && id != u.id && ch.saves
    requires OtherReferences(s.rows, s.rows[id].path, id) == {}
    ensures var counted := Interleave(System(s, [Called(id)]), [0, 0]);
            var uploaded := System(StoreFile(w, s, u, ch).0, counted.calls);
            counted.store == s && !Intact(w, Interleave(uploaded, [0, 0]).store)
  {
    hide OtherReferences, Interleave;
    var path := s.rows[id].path;
    SelectAndCount(s, id);
    CommitAndUnlink(StoreFile(w, s, u, ch).0, id, path);
    var s2 := Interleave(System(StoreFile(w, s, u, ch).0, [Counted(id, path, 0)]), [0, 0]).store;
    assert !RowIntact(w, s2.keys, s2.disk, s2.rows[u.id]);
  }
}
