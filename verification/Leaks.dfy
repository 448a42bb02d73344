/**
 When interleaved deletes leave bytes behind that no row uses: exactly when some path has several rows
 and every one of them is being deleted.
 */
module Leaks {
  import opened Cache
  import opened Store
  import opened Integrity
  import opened Deletes

  ghost predicate AllReturned(sys: System) {
    forall i :: 0 <= i < |sys.calls| ==> sys.calls[i].Returned?
  }

  predicate Targets(p: Process, id: FileId) {
    !p.Returned? && p.id == id
  }

  ghost predicate BeingDeleted(sys: System, id: FileId) {
    exists i :: 0 <= i < |sys.calls| && Targets(sys.calls[i], id)
  }

  /** Of the rows that share a path, at least one is not being deleted. */
  ghost predicate SharersStay(sys: System) {
    var rows := sys.store.rows;
    forall a, b :: a in rows && b in rows && a != b && rows[a].path == rows[b].path ==>
      exists c :: c in rows && rows[c].path == rows[a].path && !BeingDeleted(sys, c)
  }

  // ---- Enough: no schedule leaks ----

  /** Where one call stands, compared with how it began. */
  predicate OnCourse(rows: Rows, start: Process, p: Process) {
    && start.Called?
    && match p
       case Called(id) => p == start
       case Selected(id, path) => id == start.id && id in rows && path == rows[id].path
       case Counted(id, path, others) => id == start.id && id in rows && path == rows[id].path && Sole(rows, id, others)
       case Committed(id, path, others) => id == start.id && id in rows && path == rows[id].path && Sole(rows, id, others)
       case Unlinked(id) => id == start.id
       case Returned => true
  }

  /** A row alone on its path is counted alone. */
  predicate Sole(rows: Rows, id: FileId, others: nat)
    requires id in rows
  {
    OtherReferences(rows, rows[id].path, id) == {} ==> others == 0
  }

  predicate Unlinks(p: Process, path: string) {
    p.Committed? && p.others == 0 && p.path == path
  }

  /** A path on disk is still used, or some call is about to unlink it. */
  ghost predicate Accounted(sys: System, path: string) {
    path in PathsOf(sys.store.rows) || exists i :: 0 <= i < |sys.calls| && Unlinks(sys.calls[i], path)
  }

  ghost predicate Tidy(sys0: System, sys: System) {
    var rows0, rows := sys0.store.rows, sys.store.rows;
    && |sys.calls| == |sys0.calls|
    && (forall i :: 0 <= i < |sys.calls| ==> OnCourse(rows0, sys0.calls[i], sys.calls[i]))
    && (forall id :: id in rows ==> id in rows0 && rows[id] == rows0[id])
    && (forall id :: id in rows0 && !BeingDeleted(sys0, id) ==> id in rows)
    && (forall path :: path in sys.store.disk ==> Accounted(sys, path))
  }

  lemma AdvanceIsTidy(sys0: System, sys: System, i: nat)
    requires SharersStay(sys0) && Tidy(sys0, sys) && i < |sys.calls|
    ensures Tidy(sys0, Advance(sys, i))
  {
    hide Accounted, SharersStay, BeingDeleted, OnCourse, OtherReferences, Invalidate;
    var sys' := Advance(sys, i);
    AdvanceIsOnCourse(sys0, sys, i);
    UncalledStay(sys0, sys, i);
    forall path | path in sys'.store.disk
      ensures Accounted(sys', path)
    {
      AdvanceAccounts(sys0, sys, i, path);
    }
  }

  lemma UncalledStay(sys0: System, sys: System, i: nat)
    requires Tidy(sys0, sys) && i < |sys.calls|
    ensures forall id :: id in sys0.store.rows && !BeingDeleted(sys0, id) ==> id in Advance(sys, i).store.rows
  {
    hide Accounted, Sole, OtherReferences, Invalidate;
    assert OnCourse(sys0.store.rows, sys0.calls[i], sys.calls[i]);
    if !sys.calls[i].Returned? {
      assert Targets(sys0.calls[i], sys.calls[i].id);
    }
  }

  lemma AdvanceIsOnCourse(sys0: System, sys: System, i: nat)
    requires Tidy(sys0, sys) && i < |sys.calls|
    ensures OnCourse(sys0.store.rows, sys0.calls[i], Advance(sys, i).calls[i])
  {
    hide Accounted, Invalidate;
    var p := sys.calls[i];
    assert OnCourse(sys0.store.rows, sys0.calls[i], p);
    if p.Selected? {
      assert OtherReferences(sys.store.rows, p.path, p.id) <= OtherReferences(sys0.store.rows, p.path, p.id);
    }
  }

  lemma AdvanceAccounts(sys0: System, sys: System, i: nat, path: string)
    requires SharersStay(sys0) && Tidy(sys0, sys) && i < |sys.calls| && path in Advance(sys, i).store.disk
    ensures Accounted(Advance(sys, i), path)
  {
    hide Invalidate, OtherReferences, SharersStay, OnCourse, PathsOf, BeingDeleted;
    var sys', p := Advance(sys, i), sys.calls[i];
    assert Accounted(sys, path);
    if path in PathsOf(sys.store.rows) {
      if p.Counted? && path !in PathsOf(sys'.store.rows) {
        LastRowIsUnlinked(sys0, sys, i, path);
        assert Unlinks(sys'.calls[i], path);
      }
    } else {
      var j :| 0 <= j < |sys.calls| && Unlinks(sys.calls[j], path);
      assert j != i;
      assert Unlinks(sys'.calls[j], path);
    }
  }

  /** A commit that takes the last row of a path has counted no other. */
  lemma LastRowIsUnlinked(sys0: System, sys: System, i: nat, path: string)
    requires SharersStay(sys0) && Tidy(sys0, sys) && i < |sys.calls| && sys.calls[i].Counted?
    requires path in PathsOf(sys.store.rows) && path !in PathsOf(sys.store.rows - {sys.calls[i].id})
    ensures sys.calls[i].path == path && sys.calls[i].others == 0
  {
    hide Accounted, SharersStay;
    var rows, id := sys.store.rows, sys.calls[i].id;
    assert OnCourse(sys0.store.rows, sys0.calls[i], sys.calls[i]);
    assert forall other :: other in rows && other != id ==> other in rows - {id};
    if OtherReferences(sys0.store.rows, path, id) != {} {
      SharedPathStays(sys0, sys, i);
    }
  }

  lemma SharedPathStays(sys0: System, sys: System, i: nat)
    requires SharersStay(sys0) && Tidy(sys0, sys) && i < |sys.calls| && sys.calls[i].Counted?
    requires OtherReferences(sys0.store.rows, sys.calls[i].path, sys.calls[i].id) != {}
    ensures sys.calls[i].path in PathsOf(sys.store.rows - {sys.calls[i].id})
  {
    hide Accounted;
    var rows0, id, path := sys0.store.rows, sys.calls[i].id, sys.calls[i].path;
    assert OnCourse(rows0, sys0.calls[i], sys.calls[i]);
    assert Targets(sys0.calls[i], id);
    var other :| other in OtherReferences(rows0, path, id);
    var c :| c in rows0 && rows0[c].path == path && !BeingDeleted(sys0, c);
    assert c in sys.store.rows - {id};
  }

  lemma {:induction false} SchedulesAreTidy(sys0: System, sys: System, schedule: seq<nat>)
    requires SharersStay(sys0) && Tidy(sys0, sys)
    ensures Tidy(sys0, Interleave(sys, schedule))
    decreases schedule
  {
    hide Tidy, SharersStay, Act;
    if schedule != [] {
      if schedule[0] < |sys.calls| {
        AdvanceIsTidy(sys0, sys, schedule[0]);
      }
      SchedulesAreTidy(sys0, Advance(sys, schedule[0]), schedule[1..]);
    }
  }

  lemma NoScheduleLeaks(sys: System, schedule: seq<nat>)
    requires JustCalled(sys) && NoLeak(sys.store) && SharersStay(sys)
    requires AllReturned(Interleave(sys, schedule))
    ensures NoLeak(Interleave(sys, schedule).store)
  {
    hide Act;
    assert Tidy(sys, sys);
    SchedulesAreTidy(sys, sys, schedule);
    InterleavingShrinks(sys, schedule);
    var s, s' := sys.store, Interleave(sys, schedule).store;
    forall path | path in PathsOf(s'.rows)
      ensures path in s'.disk
    {
      var id :| id in s'.rows && s'.rows[id].path == path;
      assert s.rows[id].path in PathsOf(s.rows);
    }
    forall path | path in s'.disk
      ensures path in PathsOf(s'.rows)
    {
      assert Accounted(Interleave(sys, schedule), path);
    }
  }

  // ---- Needed: otherwise some schedule leaks ----

  /** The first `n` calls take two turns each, one call after the other. */
  function TwoEach(n: nat): seq<nat> {
    if n == 0 then [] else TwoEach(n - 1) + [n - 1, n - 1]
  }

  lemma TwoTurns(sys: System, i: nat)
    requires i < |sys.calls| && sys.calls[i].Called?
    ensures Interleave(sys, [i, i]) == System(sys.store, sys.calls[i := AfterCount(sys.store.rows, sys.calls[i].id)])
  {
    hide OtherReferences;
    var sys1 := Advance(sys, i);
    assert [i, i][1..] == [i];
    assert Interleave(sys1, [i]) == Advance(sys1, i);
  }

  /** A call that selected and counted. */
  function AfterCount(rows: Rows, id: FileId): Process {
    if id in rows then Counted(id, rows[id].path, |OtherReferences(rows, rows[id].path, id)|) else Returned
  }

  /** The first `n` calls have counted, the others have not started, and the store is as it was. */
  function CountedBy(sys: System, n: nat): System
    requires n <= |sys.calls| && forall i :: 0 <= i < n ==> sys.calls[i].Called?
  {
    System(sys.store, seq(|sys.calls|, i requires 0 <= i < |sys.calls| =>
      if i < n then AfterCount(sys.store.rows, sys.calls[i].id) else sys.calls[i]))
  }

  lemma {:induction false} AllCount(sys: System, n: nat)
    requires JustCalled(sys) && n <= |sys.calls|
    ensures Interleave(sys, TwoEach(n)) == CountedBy(sys, n)
  {
    hide AfterCount;
    if n == 0 {
      assert CountedBy(sys, 0).calls == sys.calls;
    } else {
      AllCount(sys, n - 1);
      InterleaveInTwo(sys, TwoEach(n - 1), [n - 1, n - 1]);
      TwoTurns(CountedBy(sys, n - 1), n - 1);
      assert CountedBy(sys, n).calls == CountedBy(sys, n - 1).calls[n - 1 := AfterCount(sys.store.rows, sys.calls[n - 1].id)];
    }
  }

  /** All calls have counted, none of those for this path counted zero, and its bytes are there. */
  ghost predicate Stuck(sys: System, path: string) {
    && path in sys.store.disk
    && forall i :: 0 <= i < |sys.calls| ==>
         match sys.calls[i]
         case Counted(_, p, others) => p == path ==> others > 0
         case Committed(_, p, others) => p == path ==> others > 0
         case Unlinked(_) => true
         case Returned => true
         case _ => false
  }

  /** Rows at this path remain only as long as the calls for them. */
  ghost predicate Doomed(sys: System, path: string) {
    forall id :: id in sys.store.rows && sys.store.rows[id].path == path ==>
      exists i :: 0 <= i < |sys.calls| && sys.calls[i].Counted? && sys.calls[i].id == id
  }

  lemma AdvanceStaysStuck(sys: System, path: string, i: nat)
    requires Stuck(sys, path) && Doomed(sys, path) && i < |sys.calls|
    ensures Stuck(Advance(sys, i), path) && Doomed(Advance(sys, i), path)
  {
    hide Invalidate;
    var sys' := Advance(sys, i);
    forall id | id in sys'.store.rows && sys'.store.rows[id].path == path
      ensures exists k :: 0 <= k < |sys'.calls| && sys'.calls[k].Counted? && sys'.calls[k].id == id
    {
      var k :| 0 <= k < |sys.calls| && sys.calls[k].Counted? && sys.calls[k].id == id;
      assert k != i;
      assert sys'.calls[k] == sys.calls[k];
    }
  }

  lemma {:induction false} SchedulesStayStuck(sys: System, path: string, schedule: seq<nat>)
    requires Stuck(sys, path) && Doomed(sys, path)
    ensures Stuck(Interleave(sys, schedule), path) && Doomed(Interleave(sys, schedule), path)
    decreases schedule
  {
    hide Stuck, Doomed, Act;
    if schedule != [] {
      if schedule[0] < |sys.calls| {
        AdvanceStaysStuck(sys, path, schedule[0]);
      }
      SchedulesStayStuck(Advance(sys, schedule[0]), path, schedule[1..]);
    }
  }

  lemma {:induction false} AllFinish(sys: System, n: nat) returns (turns: seq<nat>)
    requires n <= |sys.calls|
    ensures var sys' := Interleave(sys, turns);
            |sys'.calls| == |sys.calls| && forall k :: 0 <= k < n ==> sys'.calls[k].Returned?
    decreases n
  {
    hide Act, Interleave;
    if n == 0 {
      turns := [];
      NoTurns(sys);
    } else {
      var front := AllFinish(sys, n - 1);
      var last := FinishOne(Interleave(sys, front), n - 1);
      turns := front + last;
      InterleaveInTwo(sys, front, last);
    }
  }

  lemma SomeScheduleLeaks(sys: System, a: FileId, b: FileId) returns (schedule: seq<nat>)
    requires JustCalled(sys) && NoLeak(sys.store)
    requires a in sys.store.rows && b in sys.store.rows && a != b && sys.store.rows[a].path == sys.store.rows[b].path
    requires forall c :: c in sys.store.rows && sys.store.rows[c].path == sys.store.rows[a].path ==> BeingDeleted(sys, c)
    ensures AllReturned(Interleave(sys, schedule)) && !NoLeak(Interleave(sys, schedule).store)
  {
    hide Act, TwoEach, Interleave;
    var n, path := |sys.calls|, sys.store.rows[a].path;
    var counted := CountedBy(sys, n);
    AllCount(sys, n);
    AllCountedIsStuck(sys, a, b);
    var turns := AllFinish(counted, n);
    SchedulesStayStuck(counted, path, turns);
    schedule := TwoEach(n) + turns;
    InterleaveInTwo(sys, TwoEach(n), turns);
  }

  lemma SharedIsCounted(rows: Rows, a: FileId, b: FileId, id: FileId)
    requires a in rows && b in rows && a != b && rows[a].path == rows[b].path
    ensures |OtherReferences(rows, rows[a].path, id)| > 0
  {
    assert a in OtherReferences(rows, rows[a].path, id) || b in OtherReferences(rows, rows[a].path, id);
  }

  lemma AllCountedIsStuck(sys: System, a: FileId, b: FileId)
    requires JustCalled(sys) && NoLeak(sys.store)
    requires a in sys.store.rows && b in sys.store.rows && a != b && sys.store.rows[a].path == sys.store.rows[b].path
    requires forall c :: c in sys.store.rows && sys.store.rows[c].path == sys.store.rows[a].path ==> BeingDeleted(sys, c)
    ensures Stuck(CountedBy(sys, |sys.calls|), sys.store.rows[a].path)
    ensures Doomed(CountedBy(sys, |sys.calls|), sys.store.rows[a].path)
  {
    hide OtherReferences;
    var rows, path, counted := sys.store.rows, sys.store.rows[a].path, CountedBy(sys, |sys.calls|);
    forall id | id in rows && rows[id].path == path
      ensures |OtherReferences(rows, path, id)| > 0
    {
      SharedIsCounted(rows, a, b, id);
    }
    assert path in PathsOf(rows);
    forall id | id in rows && rows[id].path == path
      ensures exists i :: 0 <= i < |counted.calls| && counted.calls[i].Counted? && counted.calls[i].id == id
    {
      var i :| 0 <= i < |sys.calls| && Targets(sys.calls[i], id);
      assert counted.calls[i] == AfterCount(rows, id);
    }
  }

  /**
   Leaks, exactly. From a disk that holds just the bytes in use, every schedule of any set of deletes that
   runs them all to their end leaves just the bytes in use if and only if, wherever rows share a path, one
   of them is not being deleted. Deletes that share no path therefore never leak.
   */
  lemma LeakFreeExactlyWhenSharersStay(sys: System)
    requires JustCalled(sys) && NoLeak(sys.store)
    ensures (forall schedule :: AllReturned(Interleave(sys, schedule)) ==> NoLeak(Interleave(sys, schedule).store))
       <==> SharersStay(sys)
  {
    if SharersStay(sys) {
      forall schedule | AllReturned(Interleave(sys, schedule))
        ensures NoLeak(Interleave(sys, schedule).store)
      {
        NoScheduleLeaks(sys, schedule);
      }
    } else {
      var a, b :| a in sys.store.rows && b in sys.store.rows && a != b && sys.store.rows[a].path == sys.store.rows[b].path
        && forall c :: c in sys.store.rows && sys.store.rows[c].path == sys.store.rows[a].path ==> BeingDeleted(sys, c);
      var schedule := SomeScheduleLeaks(sys, a, b);
    }
  }
}
