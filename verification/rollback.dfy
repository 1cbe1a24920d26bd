/** `RollbackManager` of utils/rollback_utils.py: the journal of copy, move
    and rename operations kept per session, and the undo of a session in
    reverse order. Session files are a map from file name to their content;
    the file system is the set of paths that exist; the clock is an input. */
module Rollback {
  import opened Wrappers
  import opened Text
  import Paths

  /** One recorded operation; the timestamp, the metadata and the size and
      mtime of moved files are not modelled. */
  datatype Operation = Operation(kind: string, source: string, destination: string, rolledBack: bool)

  /** The JSON content of one session file; the timestamps are reduced to
      whether they were written. */
  datatype Session = Session(id: string, name: Option<string>, ops: seq<Operation>,
                             ended: bool, total: Option<nat>, rolledBackAt: bool)

  /** The manager's state: the history directory's session files, the
      current session file, and `current_session_operations`. */
  datatype Manager = Manager(files: map<string, Session>, current: Option<string>, currentOps: seq<Operation>)

  type FileSystem = set<string>

  function FileName(id: string): string {
    "session_" + id + ".json"
  }

  // ---------------------------------------------------------------------
  // recording

  /** `start_session(session_name)`: the id is the timestamp, followed by
      `_name` when a non-empty name is given. */
  function StartSession(m: Manager, timestamp: string, name: Option<string>): (r: (Manager, string))
    ensures r.0.current == Some(FileName(r.1)) && r.0.currentOps == []
    ensures FileName(r.1) in r.0.files && r.0.files[FileName(r.1)].ops == [] && r.0.files[FileName(r.1)].id == r.1
    ensures StartsWith(r.1, timestamp)
  {
    var id := if name.Some? && name.value != "" then timestamp + "_" + name.value else timestamp;
    var file := FileName(id);
    (Manager(m.files[file := Session(id, name, [], false, None, false)], Some(file), []), id)
  }

  /** `record_operation(type, source, destination)`: without an active
      session one is started first; the entry goes into the in-memory list
      and, when the session file is there, into the file. */
  function RecordOperation(m: Manager, kind: string, source: string, destination: string, timestamp: string): (r: Manager)
    ensures r.current.Some?
    ensures m.current.Some? ==> r.current == m.current
    ensures r.currentOps == (if m.current.Some? then m.currentOps else []) + [Operation(kind, source, destination, false)]
    ensures m.current.None? ==> r.current.value in r.files && r.files[r.current.value].ops == [Operation(kind, source, destination, false)]
    ensures m.current.Some? && m.current.value in m.files ==>
              r.files == m.files[m.current.value := m.files[m.current.value].(ops := m.files[m.current.value].ops + [Operation(kind, source, destination, false)])]
    ensures m.current.Some? && m.current.value !in m.files ==> r.files == m.files
  {
    var m1 := if m.current.None? then StartSession(m, timestamp, None).0 else m;
    var op := Operation(kind, source, destination, false);
    var file := m1.current.value;
    var files := if file in m1.files then m1.files[file := m1.files[file].(ops := m1.files[file].ops + [op])] else m1.files;
    Manager(files, m1.current, m1.currentOps + [op])
  }

  /** `end_session()`: the session file gets its end mark and the count of
      operations recorded in memory, and the session state is cleared in
      every case. */
  function EndSession(m: Manager): (r: (Manager, Option<string>))
    ensures r.0.current.None?
    ensures m.current.None? ==> r.1.None? && r.0 == m
    ensures m.current.Some? ==> r.0.currentOps == []
    ensures m.current.Some? && m.current.value in m.files ==>
              r.1 == Some(m.files[m.current.value].id) && m.current.value in r.0.files &&
              r.0.files[m.current.value].ended && r.0.files[m.current.value].total == Some(|m.currentOps|) &&
              r.0.files[m.current.value].ops == m.files[m.current.value].ops
    ensures m.current.Some? && m.current.value !in m.files ==> r.1.None? && r.0.files == m.files
  {
    match m.current
    case None => (m, None)
    case Some(file) =>
      if file in m.files then
        var s := m.files[file].(ended := true, total := Some(|m.currentOps|));
        (Manager(m.files[file := s], None, []), Some(s.id))
      else (Manager(m.files, None, []), None)
  }

  /** Recording into a fresh manager and ending the session gives a session
      whose file holds exactly the recorded operations, unmarked. */
  lemma RecordThenEnd(m: Manager, kind: string, source: string, destination: string, timestamp: string)
    requires m.current.None?
    ensures var r := RecordOperation(m, kind, source, destination, timestamp);
            var e := EndSession(r);
            e.1 == Some(timestamp) &&
            e.0.files[FileName(timestamp)].ops == [Operation(kind, source, destination, false)] &&
            e.0.files[FileName(timestamp)].total == Some(1)
  {}

  // ---------------------------------------------------------------------
  // undoing one operation

  /** `_rollback_single_operation(operation, dry_run)`: whether it succeeds,
      and the file system afterwards. */
  function UndoOne(op: Operation, fs: FileSystem, dryRun: bool): (r: (bool, FileSystem))
    ensures dryRun ==> r.1 == fs
    ensures !r.0 ==> r.1 == fs
  {
    if op.kind == "move" || op.kind == "rename" then
      if op.destination !in fs || op.source in fs then (false, fs)
      // a real move first runs `os.makedirs(os.path.dirname(source))`, which
      // raises for a source without a directory part
      else if !dryRun && op.kind == "move" && Paths.Dirname(op.source) == "" then (false, fs)
      else (true, if dryRun then fs else fs - {op.destination} + {op.source})
    else if op.kind == "copy" then
      if op.destination !in fs then (false, fs)
      else (true, if dryRun then fs else fs - {op.destination})
    else (false, fs)
  }

  /** A move or rename comes back exactly when its destination is there and
      its source is free, and for a move the source also names a directory;
      afterwards the source is there and the destination is gone. */
  lemma MoveBack(op: Operation, fs: FileSystem)
    requires op.kind == "move" || op.kind == "rename"
    ensures UndoOne(op, fs, false).0 <==>
              op.destination in fs && op.source !in fs && (op.kind == "rename" || '/' in op.source)
    ensures UndoOne(op, fs, false).0 ==>
              op.source in UndoOne(op, fs, false).1 && op.destination !in UndoOne(op, fs, false).1 &&
              forall p :: p != op.source && p != op.destination ==> (p in UndoOne(op, fs, false).1 <==> p in fs)
  {
    Paths.DirnameEmptyIff(op.source);
  }

  /** A copy comes back exactly when the copy is there, and removes only it;
      any other kind fails and changes nothing. */
  lemma CopyBack(op: Operation, fs: FileSystem)
    ensures op.kind == "copy" ==>
              (UndoOne(op, fs, false).0 <==> op.destination in fs) &&
              UndoOne(op, fs, false).1 == fs - {op.destination}
    ensures op.kind !in {"move", "rename", "copy"} ==> UndoOne(op, fs, false) == (false, fs)
  {}

  // ---------------------------------------------------------------------
  // undoing a session

  datatype Tally = Tally(rolledBack: nat, skipped: nat, failed: nat, errors: seq<Operation>)

  /** The loop of `rollback_session` over `reversed(operations)`: the last
      operation is handled first, against the file system as it is, and the
      earlier ones against the file system it leaves. A marked operation is
      skipped; a successful one is marked unless in a dry run. */
  function UndoAll(ops: seq<Operation>, fs: FileSystem, dryRun: bool): (r: (seq<Operation>, FileSystem, Tally))
    ensures |r.0| == |ops|
    ensures r.2.rolledBack + r.2.skipped + r.2.failed == |ops|
    decreases |ops|
  {
    if ops == [] then ([], fs, Tally(0, 0, 0, []))
    else
      var n := |ops| - 1;
      var last := ops[n];
      if last.rolledBack then
        var rest := UndoAll(ops[..n], fs, dryRun);
        (rest.0 + [last], rest.1, rest.2.(skipped := rest.2.skipped + 1))
      else
        var one := UndoOne(last, fs, dryRun);
        var rest := UndoAll(ops[..n], one.1, dryRun);
        if one.0 then
          (rest.0 + [if dryRun then last else last.(rolledBack := true)], rest.1, rest.2.(rolledBack := rest.2.rolledBack + 1))
        else
          (rest.0 + [last], rest.1, rest.2.(failed := rest.2.failed + 1, errors := [last] + rest.2.errors))
  }

  /** How many operations carry the mark. */
  function CountMarked(ops: seq<Operation>): (n: nat)
    ensures n <= |ops|
  {
    if ops == [] then 0 else CountMarked(ops[..|ops| - 1]) + (if ops[|ops| - 1].rolledBack then 1 else 0)
  }

  /** The undo changes only the marks, never removes one, and the skipped
      count is the number of operations already marked. */
  lemma {:induction false} UndoAllMarks(ops: seq<Operation>, fs: FileSystem, dryRun: bool)
    ensures var r := UndoAll(ops, fs, dryRun);
            (forall k :: 0 <= k < |ops| ==> r.0[k] == ops[k].(rolledBack := r.0[k].rolledBack)) &&
            (forall k :: 0 <= k < |ops| && ops[k].rolledBack ==> r.0[k].rolledBack) &&
            r.2.skipped == CountMarked(ops)
    decreases |ops|
  {
    if ops != [] {
      var n := |ops| - 1;
      var last := ops[n];
      var fs1 := if last.rolledBack then fs else UndoOne(last, fs, dryRun).1;
      UndoAllMarks(ops[..n], fs1, dryRun);
      UndoAllLast(ops, fs, dryRun);
      var rest := UndoAll(ops[..n], fs1, dryRun);
      var r := UndoAll(ops, fs, dryRun);
      forall k | 0 <= k < |ops|
        ensures r.0[k] == ops[k].(rolledBack := r.0[k].rolledBack)
        ensures ops[k].rolledBack ==> r.0[k].rolledBack
      {
        if k < n {
          assert r.0[k] == (rest.0 + [r.0[n]])[k] == rest.0[k];
          assert ops[..n][k] == ops[k];
        }
      }
    }
  }

  /** The last operation is handled first: the earlier ones are undone
      against the file system it leaves, and only its mark may change. */
  lemma UndoAllLast(ops: seq<Operation>, fs: FileSystem, dryRun: bool)
    requires ops != []
    ensures var n := |ops| - 1;
            var fs1 := if ops[n].rolledBack then fs else UndoOne(ops[n], fs, dryRun).1;
            var r := UndoAll(ops, fs, dryRun);
            var rest := UndoAll(ops[..n], fs1, dryRun);
            && r.0 == rest.0 + [r.0[n]]
            && r.0[n] == ops[n].(rolledBack := r.0[n].rolledBack)
            && (ops[n].rolledBack ==> r.0[n].rolledBack)
            && r.2.skipped == rest.2.skipped + (if ops[n].rolledBack then 1 else 0)
  {}

  /** In a dry run nothing is marked and no file changes. */
  lemma {:induction false} DryRunChangesNothing(ops: seq<Operation>, fs: FileSystem)
    ensures UndoAll(ops, fs, true).0 == ops && UndoAll(ops, fs, true).1 == fs
    decreases |ops|
  {
    if ops != [] {
      var n := |ops| - 1;
      DryRunChangesNothing(ops[..n], fs);
      assert ops[..n] + [ops[n]] == ops;
    }
  }

  /** Outside a dry run, the marks afterwards count the skipped operations
      and the rolled-back ones: a second pass will skip every operation the
      first one skipped or rolled back. */
  lemma {:induction false} MarksAfterUndo(ops: seq<Operation>, fs: FileSystem)
    ensures var r := UndoAll(ops, fs, false);
            CountMarked(r.0) == r.2.skipped + r.2.rolledBack
    decreases |ops|
  {
    if ops != [] {
      var n := |ops| - 1;
      var last := ops[n];
      var fs1 := if last.rolledBack then fs else UndoOne(last, fs, false).1;
      MarksAfterUndo(ops[..n], fs1);
      var r := UndoAll(ops, fs, false);
      assert r.0[..n] == UndoAll(ops[..n], fs1, false).0;
    }
  }

  /** One step of the loop, with the operations split as an earlier part and
      the last one. */
  lemma UndoLast(init: seq<Operation>, last: Operation, fs: FileSystem, dryRun: bool)
    requires !last.rolledBack
    ensures var one := UndoOne(last, fs, dryRun);
            UndoAll(init + [last], fs, dryRun).1 == UndoAll(init, one.1, dryRun).1 &&
            UndoAll(init + [last], fs, dryRun).2.rolledBack == UndoAll(init, one.1, dryRun).2.rolledBack + (if one.0 then 1 else 0) &&
            UndoAll(init + [last], fs, dryRun).2.failed == UndoAll(init, one.1, dryRun).2.failed + (if one.0 then 0 else 1)
  {
    assert (init + [last])[..|init|] == init;
  }

  /** Reverse order matters: a file moved twice, `a` to `b` then `b` to
      `c`, comes back to `a` in one rollback (both sources name a
      directory, as `os.makedirs` needs). */
  lemma ChainUndone(a: string, b: string, c: string)
    requires a != b && b != c && a != c
    requires '/' in a && '/' in b
    ensures var ops := [Operation("move", a, b, false), Operation("move", b, c, false)];
            var r := UndoAll(ops, {c}, false);
            r.1 == {a} && r.2.rolledBack == 2 && r.2.failed == 0
  {
    var ops := [Operation("move", a, b, false), Operation("move", b, c, false)];
    assert ops[..1] == [Operation("move", a, b, false)];
    assert ops[..1][..0] == [];
    Paths.DirnameEmptyIff(a);
    Paths.DirnameEmptyIff(b);
    assert {c} - {c} + {b} == {b};
    assert {b} - {b} + {a} == {a};
    assert UndoOne(ops[1], {c}, false) == (true, {b});
    assert UndoOne(ops[0], {b}, false) == (true, {a});
    assert ops == [ops[0]] + [ops[1]] && [ops[0]] == [] + [ops[0]];
    UndoLast([ops[0]], ops[1], {c}, false);
    UndoLast([], ops[0], {b}, false);
  }

  // ---------------------------------------------------------------------
  // the session-level method

  /** The report `rollback_session` returns. */
  datatype Report =
    | Error(message: string)
    | Report(sessionId: string, total: nat, rolledBack: nat, skipped: nat, failed: nat,
             errors: seq<Operation>, dryRun: bool)

  /** The glob `session_*<id>*.json`, for ids without wildcard characters. */
  predicate GlobMatch(name: string, id: string) {
    |name| >= 13 && StartsWith(name, "session_") && EndsWith(name, ".json") &&
    exists i :: 8 <= i <= |name| - 5 - |id| && OccursAt(name, id, i)
  }

  /** `_find_session_file(session_id)`: the exact file name, or else the
      first file of the directory listing that the glob matches. */
  function FindSessionFile(files: map<string, Session>, id: string, listing: seq<string>): (r: Option<string>)
    ensures r.Some? ==> r.value in files
    ensures FileName(id) in files ==> r == Some(FileName(id))
  {
    if FileName(id) in files then Some(FileName(id))
    else if listing == [] then None
    else if listing[0] in files && GlobMatch(listing[0], id) then Some(listing[0])
    else FindSessionFile(files, id, listing[1..])
  }

  /** The part shared by the code as written and the corrected version: which
      file is rolled back, its updated content, the file system afterwards
      and the report. */
  function UndoSession(m: Manager, sessionId: Option<string>, dryRun: bool, fs: FileSystem, listing: seq<string>)
    : (r: Result<(string, Session, FileSystem, Report)>)
    ensures r.Success? ==> r.value.0 in m.files && r.value.3.Report?
  {
    var file := if sessionId.None? then m.current else FindSessionFile(m.files, sessionId.value, listing);
    if file.None? then
      Failure(if sessionId.None? then "No active session" else "Session not found: " + sessionId.value)
    else if file.value !in m.files then Failure("Failed to load session data")
    else
      var s := m.files[file.value];
      var u := UndoAll(s.ops, fs, dryRun);
      var s' := if dryRun then s else s.(ops := u.0, rolledBackAt := true);
      Success((file.value, s', u.1,
               Report(s.id, |s.ops|, u.2.rolledBack, u.2.skipped, u.2.failed, u.2.errors, dryRun)))
  }

  /** `rollback_session(session_id, dry_run)` as written: the updated
      session is saved through `_save_session`, which always writes to the
      CURRENT session file. With no current session the write raises and is
      swallowed, so the marks are lost; with another session current, that
      session's file is overwritten. */
  function RollbackSessionAsWritten(m: Manager, sessionId: Option<string>, dryRun: bool, fs: FileSystem, listing: seq<string>)
    : (r: (Manager, FileSystem, Report))
    ensures dryRun ==> r.0 == m && r.1 == fs
  {
    match UndoSession(m, sessionId, dryRun, fs, listing)
    case Failure(e) => (m, fs, Error(e))
    case Success((file, s', fs', report)) =>
      if dryRun then (DryRunChangesNothing(m.files[file].ops, fs); (m, fs, report))
      else if m.current.Some? then (m.(files := m.files[m.current.value := s']), fs', report)
      else (m, fs', report)
  }

  /** The corrected method: the updated session goes back into its own
      file. */
  function RollbackSession(m: Manager, sessionId: Option<string>, dryRun: bool, fs: FileSystem, listing: seq<string>)
    : (r: (Manager, FileSystem, Report))
    ensures dryRun ==> r.0 == m && r.1 == fs
    ensures r.2.Report? ==> r.2.rolledBack + r.2.skipped + r.2.failed == r.2.total
    ensures r.2.Error? ==> r.0 == m && r.1 == fs
  {
    match UndoSession(m, sessionId, dryRun, fs, listing)
    case Failure(e) => (m, fs, Error(e))
    case Success((file, s', fs', report)) =>
      if dryRun then (DryRunChangesNothing(m.files[file].ops, fs); (m, fs, report))
      else (m.(files := m.files[file := s']), fs', report)
  }

  /** Without an id, and when the session being undone is the current one,
      the two versions agree: the defect needs an id naming another
      session. */
  lemma CurrentSessionAgrees(m: Manager, dryRun: bool, fs: FileSystem, listing: seq<string>)
    ensures RollbackSessionAsWritten(m, None, dryRun, fs, listing) == RollbackSession(m, None, dryRun, fs, listing)
  {}

  /** With the corrected method, a second rollback of the same session skips
      every operation the first one skipped or rolled back. */
  lemma SecondRollbackSkips(m: Manager, sessionId: Option<string>, fs: FileSystem, listing: seq<string>)
    requires sessionId.None? || (sessionId.Some? && FileName(sessionId.value) in m.files)
    ensures var first := RollbackSession(m, sessionId, false, fs, listing);
            var second := RollbackSession(first.0, sessionId, false, first.1, listing);
            first.2.Report? ==>
              second.2.Report? && second.2.skipped == first.2.skipped + first.2.rolledBack
  {
    var first := RollbackSession(m, sessionId, false, fs, listing);
    if first.2.Report? {
      var file := if sessionId.None? then m.current.value else FileName(sessionId.value);
      var s := m.files[file];
      UndoAllMarks(s.ops, fs, false);
      MarksAfterUndo(s.ops, fs);
      var u := UndoAll(s.ops, fs, false);
      assert first.0.files[file].ops == u.0;
      assert first.0.current == m.current;
      UndoAllMarks(u.0, u.1, false);
    }
  }

  // ---------------------------------------------------------------------
  // the defect, on a concrete journal

  const MovedOnce: Operation := Operation("move", "p/s.jpg", "p/d.jpg", false)

  /** A closed session holding one move, with no session current. */
  const Journal: Manager := Manager(map[FileName("A") := Session("A", None, [MovedOnce], true, Some(1), false)], None, [])

  /** As written, rolling back session `A` by id twice: the first pass moves
      the file back but the mark is never stored, so the second pass tries
      the move again and reports it as failed instead of skipped. */
  lemma RollbackByIdForgets()
    ensures var first := RollbackSessionAsWritten(Journal, Some("A"), false, {"p/d.jpg"}, []);
            var second := RollbackSessionAsWritten(first.0, Some("A"), false, first.1, []);
            first.2.Report? && first.2.rolledBack == 1 &&
            first.0 == Journal &&
            second.2.Report? && second.2.skipped == 0 && second.2.failed == 1
  {
    var u := UndoAll([MovedOnce], {"p/d.jpg"}, false);
    assert [MovedOnce][..0] == [];
    assert "p/s.jpg"[2] != "p/d.jpg"[2];
    Paths.DirnameEmptyIff("p/s.jpg");
    assert "p/s.jpg"[1] == '/';
    assert {"p/d.jpg"} - {"p/d.jpg"} + {"p/s.jpg"} == {"p/s.jpg"};
    assert UndoOne(MovedOnce, {"p/d.jpg"}, false) == (true, {"p/s.jpg"});
    assert [MovedOnce] == [] + [MovedOnce];
    UndoLast([], MovedOnce, {"p/d.jpg"}, false);
    assert u.1 == {"p/s.jpg"};
    var v := UndoAll([MovedOnce], {"p/s.jpg"}, false);
    assert v.2.failed == 1;
  }

  /** The corrected method on the same journal: the second pass skips. */
  lemma RollbackByIdRemembers()
    ensures var first := RollbackSession(Journal, Some("A"), false, {"p/d.jpg"}, []);
            var second := RollbackSession(first.0, Some("A"), false, first.1, []);
            first.2.Report? && first.2.rolledBack == 1 &&
            second.2.Report? && second.2.skipped == 1 && second.2.failed == 0
  {
    SecondRollbackSkips(Journal, Some("A"), {"p/d.jpg"}, []);
    var u := UndoAll([MovedOnce], {"p/d.jpg"}, false);
    assert [MovedOnce][..0] == [];
    Paths.DirnameEmptyIff("p/s.jpg");
    assert "p/s.jpg"[1] == '/';
    assert u.2.rolledBack == 1 && u.2.skipped == 0;
    UndoAllMarks([MovedOnce], {"p/d.jpg"}, false);
    MarksAfterUndo([MovedOnce], {"p/d.jpg"});
  }
}
