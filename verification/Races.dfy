/**
 Uploads taken apart: deletes that run between an upload's hash query, its write and its save, and exactly
 when they can take the bytes its row is about to point at.
 */
module Races {
  import opened Base
  import opened Pipeline
  import opened Cache
  import opened Store
  import opened Integrity
  import opened Deletes

  // ---- Which paths calls in flight can still unlink ----

  /** A call that has counted no other row on this path, and is yet to unlink it. */
  predicate CountedAlone(p: Process, path: string) {
    match p
    case Counted(_, path', others) => path' == path && others == 0
    case Committed(_, path', others) => path' == path && others == 0
    case _ => false
  }

  /** A call that is yet to count the rows on this path. */
  predicate WillCount(rows: Rows, p: Process, path: string) {
    match p
    case Called(id) => id in rows && rows[id].path == path
    case Selected(_, path') => path' == path
    case _ => false
  }

  /** A call that is yet to delete this row. */
  predicate WillDelete(p: Process, id: FileId) {
    (p.Called? || p.Selected? || p.Counted?) && p.id == id
  }

  /** Every row on this path but one is about to go. */
  ghost predicate OthersGo(sys: System, path: string, id: FileId) {
    forall other :: other in sys.store.rows && sys.store.rows[other].path == path && other != id ==>
      exists j :: 0 <= j < |sys.calls| && WillDelete(sys.calls[j], other)
  }

  predicate Dangerous(sys: System, i: nat, path: string)
    requires i < |sys.calls|
  {
    CountedAlone(sys.calls[i], path) || WillCount(sys.store.rows, sys.calls[i], path)
  }

  /** Some call unlinks this path under some schedule. */
  ghost predicate CanUnlink(sys: System, path: string) {
    exists i :: 0 <= i < |sys.calls| && Dangerous(sys, i, path)
      && (CountedAlone(sys.calls[i], path) || OthersGo(sys, path, sys.calls[i].id))
  }

  // ---- If not, the bytes stay ----

  /** The bytes at a path are what they were. */
  predicate SameBytes(disk: Disk, disk': Disk, path: string) {
    path in disk ==> path in disk' && disk'[path] == disk[path]
  }

  lemma AdvanceUnlinksNothing(sys: System, path: string, i: nat)
    requires !CanUnlink(sys, path) && i < |sys.calls|
    ensures !CanUnlink(Advance(sys, i), path) && SameBytes(sys.store.disk, Advance(sys, i).store.disk, path)
  {
    hide Invalidate, OthersGo;
    var sys' := Advance(sys, i);
    assert Dangerous(sys, i, path) ==> !CountedAlone(sys.calls[i], path);
    forall k | 0 <= k < |sys'.calls| && Dangerous(sys', k, path)
      ensures !CountedAlone(sys'.calls[k], path) && !OthersGo(sys', path, sys'.calls[k].id)
    {
      DangerIsOld(sys, path, i, k);
    }
  }

  lemma DangerIsOld(sys: System, path: string, i: nat, k: nat)
    requires !CanUnlink(sys, path) && i < |sys.calls| && k < |sys.calls| && Dangerous(Advance(sys, i), k, path)
    ensures !CountedAlone(Advance(sys, i).calls[k], path)
    ensures !OthersGo(Advance(sys, i), path, Advance(sys, i).calls[k].id)
  {
    hide Invalidate, OthersGo, OtherReferences;
    var sys' := Advance(sys, i);
    assert sys'.calls[k].id == sys.calls[k].id;
    assert !CountedAlone(sys.calls[k], path);
    if k == i && sys'.calls[i].Counted? && sys'.calls[i].path == path {
      CountsOthers(sys, path, i);
    }
    assert Dangerous(sys, k, path);
    if OthersGo(sys', path, sys.calls[k].id) {
      OthersGoOn(sys, path, i, sys.calls[k].id);
    }
  }

  /** A call that could count alone now could have been foreseen to. */
  lemma CountsOthers(sys: System, path: string, i: nat)
    requires !CanUnlink(sys, path) && i < |sys.calls| && sys.calls[i].Selected? && sys.calls[i].path == path
    ensures |OtherReferences(sys.store.rows, path, sys.calls[i].id)| > 0
  {
    assert Dangerous(sys, i, path);
    var other :| other in sys.store.rows && sys.store.rows[other].path == path && other != sys.calls[i].id;
    assert other in OtherReferences(sys.store.rows, path, sys.calls[i].id);
  }

  lemma OthersGoOn(sys: System, path: string, i: nat, id: FileId)
    requires i < |sys.calls| && OthersGo(Advance(sys, i), path, id)
    ensures OthersGo(sys, path, id)
  {
    hide Invalidate, OtherReferences;
    var sys' := Advance(sys, i);
    forall other | other in sys.store.rows && sys.store.rows[other].path == path && other != id
      ensures exists j :: 0 <= j < |sys.calls| && WillDelete(sys.calls[j], other)
    {
      if other in sys'.store.rows {
        var j :| 0 <= j < |sys'.calls| && WillDelete(sys'.calls[j], other);
        assert WillDelete(sys.calls[j], other);
      } else {
        assert WillDelete(sys.calls[i], other);
      }
    }
  }

  lemma {:induction false} NothingUnlinked(sys: System, path: string, schedule: seq<nat>)
    requires !CanUnlink(sys, path)
    ensures !CanUnlink(Interleave(sys, schedule), path)
    ensures SameBytes(sys.store.disk, Interleave(sys, schedule).store.disk, path)
    decreases schedule
  {
    hide Act, CanUnlink;
    if schedule != [] {
      if schedule[0] < |sys.calls| {
        AdvanceUnlinksNothing(sys, path, schedule[0]);
      }
      NothingUnlinked(Advance(sys, schedule[0]), path, schedule[1..]);
    }
  }

  // ---- If so, some schedule takes them ----

  /** A call alone on its path unlinks it when it takes its turns. */
  lemma {:induction false} AloneUnlinks(sys: System, i: nat, path: string) returns (turns: seq<nat>)
    requires i < |sys.calls|
    requires CountedAlone(sys.calls[i], path)
          || (WillCount(sys.store.rows, sys.calls[i], path) && OtherReferences(sys.store.rows, path, sys.calls[i].id) == {})
    ensures path !in Interleave(sys, turns).store.disk
    decreases TurnsLeft(sys.calls[i])
  {
    hide OtherReferences, Invalidate, Interleave;
    var sys1 := Advance(sys, i);
    if sys.calls[i].Committed? {
      turns := [i];
      OneTurn(sys, i, []);
      NoTurns(sys1);
    } else {
      var rest := AloneUnlinks(sys1, i, path);
      turns := [i] + rest;
      OneTurn(sys, i, rest);
    }
  }

  /** With every call for another row over, among the first `n`: the rows they were yet to delete are gone, and this row and its calls are untouched. */
  ghost predicate OthersGone(sys: System, sys': System, id: FileId, n: nat) {
    && |sys'.calls| == |sys.calls|
    && (forall j :: 0 <= j < |sys.calls| && (j >= n || sys.calls[j].Returned? || sys.calls[j].id == id) ==>
          sys'.calls[j] == sys.calls[j])
    && (forall other :: other in sys'.store.rows ==> other in sys.store.rows && sys'.store.rows[other] == sys.store.rows[other])
    && (id in sys.store.rows ==> id in sys'.store.rows)
    && (forall j, other :: 0 <= j < n && j < |sys.calls| && WillDelete(sys.calls[j], other) && other != id ==>
          other !in sys'.store.rows)
  }

  lemma {:induction false} OthersFinish(sys: System, id: FileId, n: nat) returns (turns: seq<nat>)
    requires n <= |sys.calls|
    ensures OthersGone(sys, Interleave(sys, turns), id, n)
    decreases n
  {
    hide Act, Interleave;
    if n == 0 {
      turns := [];
      NoTurns(sys);
    } else {
      turns := OthersFinish(sys, id, n - 1);
      var p := sys.calls[n - 1];
      if !p.Returned? && p.id != id {
        var front := turns;
        var sys1 := Interleave(sys, front);
        var last := FinishOne(sys1, n - 1);
        InterleaveInTwo(sys, front, last);
        turns := front + last;
      }
    }
  }

  lemma SomeScheduleUnlinks(sys: System, path: string) returns (schedule: seq<nat>)
    requires CanUnlink(sys, path)
    ensures path !in Interleave(sys, schedule).store.disk
  {
    hide Act, Interleave, OthersGone, OthersGo, OtherReferences;
    var i :| 0 <= i < |sys.calls| && Dangerous(sys, i, path)
      && (CountedAlone(sys.calls[i], path) || OthersGo(sys, path, sys.calls[i].id));
    if CountedAlone(sys.calls[i], path) {
      schedule := AloneUnlinks(sys, i, path);
    } else {
      var id := sys.calls[i].id;
      var turns := OthersFinish(sys, id, |sys.calls|);
      var sys1 := Interleave(sys, turns);
      LeftAlone(sys, sys1, i, path);
      var rest := AloneUnlinks(sys1, i, path);
      InterleaveInTwo(sys, turns, rest);
      schedule := turns + rest;
    }
  }

  lemma LeftAlone(sys: System, sys': System, i: nat, path: string)
    requires i < |sys.calls| && WillCount(sys.store.rows, sys.calls[i], path)
    requires OthersGo(sys, path, sys.calls[i].id) && OthersGone(sys, sys', sys.calls[i].id, |sys.calls|)
    ensures |sys'.calls| == |sys.calls| && sys'.calls[i] == sys.calls[i] && WillCount(sys'.store.rows, sys.calls[i], path)
    ensures OtherReferences(sys'.store.rows, path, sys.calls[i].id) == {}
  {
  }

  // ---- An upload in its own steps ----

  /** The row is saved while calls are in flight. */
  function Saved(sys: System, id: FileId, row: Row): System {
    System(sys.store.(rows := SaveRow(sys.store.rows, id, row)), sys.calls)
  }

  /** The bytes are written while calls are in flight. */
  function Written(sys: System, path: string, bytes: Bytes): System {
    System(sys.store.(disk := AtomicWrite(sys.store.disk, path, bytes)), sys.calls)
  }

  /** With no step of a call in between, these are the rows and the disk the upload leaves. */
  lemma UnsplitUploads(w: World, sys: System, u: Upload, ch: Chance)
    requires Possible(w, sys.store, u, ch) && StoreFile(w, sys.store, u, ch).1.Ok?
    ensures var (s', r) := StoreFile(w, sys.store, u, ch);
            && (BranchOf(w, sys.store, u, ch).Alias? ==>
                  s' == Saved(sys, u.id, r.value).store.(buckets := s'.buckets))
            && (BranchOf(w, sys.store, u, ch).Write? ==>
                  var bytes := EncodeUpload(w, sys.store, u, ch).value.1;
                  s' == Saved(Written(sys, r.value.path, bytes), u.id, r.value).store.(buckets := s'.buckets, cache := s'.cache))
  {
    hide EncodeUpload, PutMeta, PutContent, SaveRow, AtomicWrite, PathOf;
  }

  /** A row saved over bytes that are there and that no call can unlink stays intact, and so does every other row. */
  lemma SavedStaysIntact(w: World, sys: System, id: FileId, row: Row, after: seq<nat>)
    requires Intact(w, sys.store) && AllTruthful(sys) && !CanUnlink(sys, row.path)
    requires RowIntact(w, sys.store.keys, sys.store.disk, row)
    ensures Intact(w, Interleave(Saved(sys, id, row), after).store)
  {
    hide Restore, Unsealed, OthersGo, Interleave;
    var saved := Saved(sys, id, row);
    assert Intact(w, saved.store);
    forall i | 0 <= i < |sys.calls|
      ensures Truthful(saved.store.rows, sys.calls[i])
    {
      assert Truthful(sys.store.rows, sys.calls[i]);
      assert !CountedAlone(sys.calls[i], row.path) by {
        assert Dangerous(sys, i, row.path) || !CountedAlone(sys.calls[i], row.path);
      }
      OneCallKeepsTruth(sys.store.rows, saved.store.rows, sys.calls[i], id, Some(row.path));
    }
    TruthfulCallsAreSafe(w, saved, after);
  }

  /**
   An aliasing upload whose save comes any number of steps of deletes after its hash query, exactly: all
   rows stay intact however the calls in flight take their turns before and after the save if and only if
   none of them can unlink the path it found.
   */
  lemma SplitAlias(w: World, sys: System, u: Upload, ch: Chance)
    requires Intact(w, sys.store) && AllTruthful(sys)
    requires Possible(w, sys.store, u, ch) && BranchOf(w, sys.store, u, ch).Alias?
    ensures var row := AliasRow(w, u, ch, BranchOf(w, sys.store, u, ch).existing);
            (forall before, after :: Intact(w, Interleave(Saved(Interleave(sys, before), u.id, row), after).store))
              <==> !CanUnlink(sys, row.path)
  {
    hide Interleave, CanUnlink, RowIntact, AllTruthful;
    var row := AliasRow(w, u, ch, BranchOf(w, sys.store, u, ch).existing);
    if CanUnlink(sys, row.path) {
      var before := SomeScheduleUnlinks(sys, row.path);
      var saved := Saved(Interleave(sys, before), u.id, row);
      NoTurns(saved);
      LostRow(w, saved.store, u.id);
    } else {
      AliasRowIsIntact(w, sys.store, u, ch);
      forall before, after
        ensures Intact(w, Interleave(Saved(Interleave(sys, before), u.id, row), after).store)
      {
        StillThere(w, sys, row, before);
        SavedStaysIntact(w, Interleave(sys, before), u.id, row, after);
      }
    }
  }

  lemma LostRow(w: World, s: State, id: FileId)
    requires id in s.rows && s.rows[id].path !in s.disk
    ensures !Intact(w, s)
  {
  }

  lemma AliasRowIsIntact(w: World, s: State, u: Upload, ch: Chance)
    requires Intact(w, s) && Possible(w, s, u, ch) && BranchOf(w, s, u, ch).Alias?
    ensures RowIntact(w, s.keys, s.disk, AliasRow(w, u, ch, BranchOf(w, s, u, ch).existing))
  {
  }

  /** Deletes keep everything a later save relies on. */
  lemma StillThere(w: World, sys: System, row: Row, schedule: seq<nat>)
    requires Intact(w, sys.store) && AllTruthful(sys) && !CanUnlink(sys, row.path)
    requires RowIntact(w, sys.store.keys, sys.store.disk, row)
    ensures var sys' := Interleave(sys, schedule);
            && Intact(w, sys'.store) && AllTruthful(sys') && !CanUnlink(sys', row.path)
            && RowIntact(w, sys'.store.keys, sys'.store.disk, row)
  {
    hide Interleave, CanUnlink, Truthful, Restore, Unsealed;
    TruthfulCallsAreSafe(w, sys, schedule);
    InterleavingShrinks(sys, schedule);
    NothingUnlinked(sys, row.path, schedule);
  }

  /**
   A writing upload in its steps, exactly: with no row on its target or its temporary sibling, all rows
   stay intact however the calls in flight take their turns before the write, between write and save, and
   after it, if and only if none of them can unlink the target.
   */
  lemma SplitWrite(w: World, sys: System, u: Upload, ch: Chance)
    requires w.Lawful() && Intact(w, sys.store) && AllTruthful(sys)
    requires Possible(w, sys.store, u, ch) && Writes(w, sys.store, u, ch)
    requires TargetFree(w, sys.store, u, ch.(saves := false))
    ensures var (e, bytes) := EncodeUpload(w, sys.store, u, ch).value;
            var row := NewRow(w, u, ch, e, |bytes|);
            (forall before, between, after ::
              Intact(w, Interleave(Saved(Interleave(Written(Interleave(sys, before), row.path, bytes), between), u.id, row), after).store))
              <==> !CanUnlink(sys, row.path)
  {
    hide Interleave, CanUnlink, RowIntact, AllTruthful, EncodeUpload, AtomicWrite, TargetFree;
    var (e, bytes) := EncodeUpload(w, sys.store, u, ch).value;
    var row := NewRow(w, u, ch, e, |bytes|);
    if CanUnlink(sys, row.path) {
      NoTurns(sys);
      var written := Written(Interleave(sys, []), row.path, bytes);
      assert CanUnlink(written, row.path) by { SameRowsUnlink(sys, written, row.path); }
      var between := SomeScheduleUnlinks(written, row.path);
      var saved := Saved(Interleave(written, between), u.id, row);
      NoTurns(saved);
      LostRow(w, saved.store, u.id);
    } else {
      forall before, between, after
        ensures Intact(w, Interleave(Saved(Interleave(Written(Interleave(sys, before), row.path, bytes), between), u.id, row), after).store)
      {
        WrittenIsThere(w, sys, u, ch, before);
        var written := Written(Interleave(sys, before), row.path, bytes);
        StillThere(w, written, row, between);
        SavedStaysIntact(w, Interleave(written, between), u.id, row, after);
      }
    }
  }

  lemma SameRowsUnlink(sys: System, sys': System, path: string)
    requires sys'.store.rows == sys.store.rows && sys'.calls == sys.calls
    ensures CanUnlink(sys', path) <==> CanUnlink(sys, path)
  {
  }

  lemma WrittenIsThere(w: World, sys: System, u: Upload, ch: Chance, before: seq<nat>)
    requires w.Lawful() && Intact(w, sys.store) && AllTruthful(sys)
    requires Possible(w, sys.store, u, ch) && Writes(w, sys.store, u, ch)
    requires TargetFree(w, sys.store, u, ch.(saves := false)) && !CanUnlink(sys, PathOf(w.cfg, u.id))
    ensures var (e, bytes) := EncodeUpload(w, sys.store, u, ch).value;
            var row := NewRow(w, u, ch, e, |bytes|);
            var written := Written(Interleave(sys, before), row.path, bytes);
            && Intact(w, written.store) && AllTruthful(written) && !CanUnlink(written, row.path)
            && RowIntact(w, written.store.keys, written.store.disk, row)
  {
    hide Interleave, CanUnlink, Truthful, Restore, Unsealed, EncodeUpload, PathOf, TempPath;
    var (e, bytes) := EncodeUpload(w, sys.store, u, ch).value;
    var path := PathOf(w.cfg, u.id);
    var sys1 := Interleave(sys, before);
    var written := Written(sys1, path, bytes);
    TruthfulCallsAreSafe(w, sys, before);
    InterleavingShrinks(sys, before);
    NothingUnlinked(sys, path, before);
    SameRowsUnlink(sys1, written, path);
    NewRowIsIntact(w, sys.store, u, ch, written.store.disk);
    forall id | id in written.store.rows
      ensures RowIntact(w, written.store.keys, written.store.disk, written.store.rows[id])
    {
      assert RowIntact(w, sys1.store.keys, sys1.store.disk, sys1.store.rows[id]);
    }
  }
}
