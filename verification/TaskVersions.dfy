/** One task row under concurrent edits: compare-and-swap on `version`, the database trigger that
    keeps `completed_at`, and the read-modify-write of archive and restore. */
module TaskVersions {
  import opened Common

  datatype Status = Open | InProgress | Review | Finished

  datatype Row = Row(status: Status, completedAt: Option<int>, version: int, archived: bool, column: Id)

  /** A patch sets the fields it names; a move sets the column and, when the project completes
      tasks dropped on its "Done" column, the status. */
  datatype Edit = Patch(status: Option<Status>) | Move(column: Id, completes: bool)

  /** The SET clause of an update; None leaves a field out. */
  datatype Values = Values(status: Option<Status>, completedAt: Option<Option<int>>, column: Option<Id>, version: int)

  function PatchValues(previous: Status, status: Option<Status>, version: int, now: int): Values {
    var completedAt :=
      if status == Some(Finished) && previous != Finished then Some(Some(now))
      else if status.Some? && status != Some(Finished) && previous == Finished then Some(None)
      else None;
    Values(status, completedAt, None, version + 1)
  }

  function MoveValues(column: Id, completes: bool, version: int, now: int): Values {
    if completes then Values(Some(Finished), Some(Some(now)), Some(column), version + 1)
    else Values(None, None, Some(column), version + 1)
  }

  function EditValues(previous: Status, edit: Edit, version: int, now: int): Values {
    match edit
    case Patch(status) => PatchValues(previous, status, version, now)
    case Move(column, completes) => MoveValues(column, completes, version, now)
  }

  /** BEFORE UPDATE OF status: fires only when the SET clause names the status. */
  function SyncCompletedAt(old_: Row, new_: Row, clock: int): Row {
    if new_.status == Finished && old_.status != Finished then new_.(completedAt := Some(clock))
    else if new_.status != Finished && old_.status == Finished then new_.(completedAt := None)
    else new_
  }

  function Assigned(row: Row, values: Values): Row {
    Row(if values.status.Some? then values.status.value else row.status,
        if values.completedAt.Some? then values.completedAt.value else row.completedAt,
        values.version,
        row.archived,
        if values.column.Some? then values.column.value else row.column)
  }

  function Updated(row: Row, values: Values, clock: int): Row {
    var next := Assigned(row, values);
    if values.status.Some? then SyncCompletedAt(row, next, clock) else next
  }

  /** `WHERE version = expected`: the row that results, and whether one matched. */
  function CompareAndSwap(row: Row, expected: int, values: Values, clock: int): (Row, bool) {
    if row.version == expected then (Updated(row, values, clock), true) else (row, false)
  }

  ghost predicate StampedIffFinished(row: Row) {
    row.status == Finished <==> row.completedAt.Some?
  }

  /** The row as an object whose fields the statements assign. */
  class TaskRow {
    var status: Status
    var completedAt: Option<int>
    var version: int
    var archived: bool
    var column: Id

    ghost function Value(): Row
      reads this
    {
      Row(status, completedAt, version, archived, column)
    }

    constructor (column: Id)
      ensures Value() == Row(Open, None, 1, false, column)
    {
      status, completedAt, version, archived, this.column := Open, None, 1, false, column;
    }

    /** An update of the row by a handler that read `previous` earlier. */
    method Edit(previous: Status, edit: Edit, expected: int, now: int, clock: int) returns (matched: bool)
      modifies this
      ensures (Value(), matched)
              == CompareAndSwap(old(Value()), expected, EditValues(previous, edit, expected, now), clock)
    {
      var setStatus: Option<Status> := None;
      var setCompleted: Option<Option<int>> := None;
      match edit {
        case Patch(newStatus) =>
          setStatus := newStatus;
          if newStatus == Some(Finished) && previous != Finished {
            setCompleted := Some(Some(now));
          } else if newStatus.Some? && newStatus != Some(Finished) && previous == Finished {
            setCompleted := Some(None);
          }
        case Move(_, completes) =>
          if completes {
            setStatus := Some(Finished);
            setCompleted := Some(Some(now));
          }
      }
      if version != expected {
        return false;
      }
      var oldStatus := status;
      version := expected + 1;
      if edit.Move? {
        column := edit.column;
      }
      if setCompleted.Some? {
        completedAt := setCompleted.value;
      }
      if setStatus.Some? {
        status := setStatus.value;
        if status == Finished && oldStatus != Finished {
          completedAt := Some(clock);
        } else if status != Finished && oldStatus == Finished {
          completedAt := None;
        }
      }
      return true;
    }

    /** The write half of archive (gone) or restore: the version comes from the earlier read. */
    method SetArchived(gone: bool, readVersion: int)
      modifies this
      ensures Value() == old(Value()).(archived := gone, version := readVersion + 1)
    {
      archived := gone;
      version := readVersion + 1;
    }
  }

  // ---------------------------------------------------------------- completion stamps

  /** Whatever status the handler had read, and however stale, an update composed with the trigger
      leaves the row stamped exactly when it is finished. */
  lemma UpdateKeepsStamp(row: Row, previous: Status, edit: Edit, expected: int, now: int, clock: int)
    requires StampedIffFinished(row)
    ensures StampedIffFinished(CompareAndSwap(row, expected, EditValues(previous, edit, expected, now), clock).0)
  {
  }

  /** What an edit that carries the present version leaves behind, column by column of the row, the
      trigger included. */
  lemma WinningEdit(row: Row, previous: Status, edit: Edit, now: int, clock: int)
    ensures var values := EditValues(previous, edit, row.version, now);
            var (after, matched) := CompareAndSwap(row, row.version, values, clock);
            && matched && after.version == row.version + 1 && after.archived == row.archived
            && after.column == (if edit.Move? then edit.column else row.column)
            && (edit.Patch? && edit.status.Some? ==> after.status == edit.status.value)
            && (edit.Patch? && edit.status == None ==> after.status == row.status)
            && (edit.Move? ==> after.status == if edit.completes then Finished else row.status)
  {
  }

  /** An edit that carries any other version changes nothing. */
  lemma LosingEdit(row: Row, previous: Status, edit: Edit, expected: int, now: int, clock: int)
    requires expected != row.version
    ensures CompareAndSwap(row, expected, EditValues(previous, edit, expected, now), clock) == (row, false)
  {
  }

  /** When a task is finished or reopened the database decides on the stamp: the clock of the trigger,
      or none; and an edit that leaves the status alone leaves the stamp alone. */
  lemma StampOfEdit(row: Row, previous: Status, edit: Edit, now: int, clock: int)
    requires StampedIffFinished(row)
    ensures var after := CompareAndSwap(row, row.version, EditValues(previous, edit, row.version, now), clock).0;
            && (row.status != Finished && after.status == Finished ==> after.completedAt == Some(clock))
            && (after.status != Finished ==> after.completedAt == None)
            && (edit == Patch(None) || (edit.Move? && !edit.completes) ==> after.completedAt == row.completedAt)
            && (row.status == Finished && edit.Move? && edit.completes ==> after.completedAt == Some(now))
            && (row.status == Finished && edit == Patch(Some(Finished)) ==>
                  after.completedAt == if previous == Finished then row.completedAt else Some(now))
  {
  }

  /** Why the trigger is there: a patch that finishes or reopens the task would keep the stamp
      without it exactly when the status the handler had read was not stale about being finished. */
  lemma HandlerAloneKeepsStampIff(row: Row, previous: Status, status: Option<Status>, expected: int, now: int)
    requires StampedIffFinished(row)
    ensures StampedIffFinished(Assigned(row, PatchValues(previous, status, expected, now))) <==>
      (if status.Some? && (row.status == Finished) != (status.value == Finished)
       then (previous == Finished) == (row.status == Finished) else true)
  {
  }

  // ---------------------------------------------------------------- interleavings

  /** What a handler carries from its read to its write. `stamp` is the number of mutations that
      had been committed when it read. */
  datatype Read =
    | ForEdit(edit: Edit, expected: int, previous: Status)
    | ForArchive(version: int, stamp: nat)
    | ForRestore(version: int, stamp: nat)

  /** The row, the handlers between read and write, the number of committed mutations and the
      versions that the successful edits carried, in order. */
  datatype System = System(row: Row, inFlight: map<Id, Read>, commits: nat, won: seq<int>)

  datatype Event =
    | BeginEdit(handler: Id, edit: Edit, expected: int)
    | BeginArchive(handler: Id)
    | BeginRestore(handler: Id)
    | Commit(handler: Id, now: int, clock: int)
    | ColumnDeleted(moveTo: Id)

  const NEW_TASK := System(Row(Open, None, 1, false, 0), map[], 0, [])

  function Step(s: System, e: Event): System {
    match e
    case BeginEdit(h, edit, expected) =>
      if h in s.inFlight || s.row.archived then s
      else s.(inFlight := s.inFlight[h := ForEdit(edit, expected, s.row.status)])
    case BeginArchive(h) =>
      if h in s.inFlight || s.row.archived then s
      else s.(inFlight := s.inFlight[h := ForArchive(s.row.version, s.commits)])
    case BeginRestore(h) =>
      if h in s.inFlight || !s.row.archived then s
      else s.(inFlight := s.inFlight[h := ForRestore(s.row.version, s.commits)])
    case ColumnDeleted(moveTo) =>
      s.(row := s.row.(column := moveTo, version := s.row.version + 1), commits := s.commits + 1)
    case Commit(h, now, clock) =>
      if h !in s.inFlight then s
      else Write(s.(inFlight := s.inFlight - {h}), s.inFlight[h], now, clock)
  }

  function Write(s: System, read: Read, now: int, clock: int): System {
    match read
    case ForEdit(edit, expected, previous) =>
      var (row, matched) := CompareAndSwap(s.row, expected, EditValues(previous, edit, expected, now), clock);
      if matched then s.(row := row, commits := s.commits + 1, won := s.won + [expected]) else s
    case ForArchive(version, _) =>
      s.(row := s.row.(archived := true, version := version + 1), commits := s.commits + 1)
    case ForRestore(version, _) =>
      s.(row := s.row.(archived := false, version := version + 1), commits := s.commits + 1)
  }

  function Run(s: System, es: seq<Event>): System
    decreases |es|
  {
    if es == [] then s else Run(Step(s, es[0]), es[1..])
  }

  /** The event writes an archive or a restore whose read is out of date. */
  predicate StaleWrite(s: System, e: Event) {
    && e.Commit? && e.handler in s.inFlight && !s.inFlight[e.handler].ForEdit?
    && s.inFlight[e.handler].stamp != s.commits
  }

  /** No mutation is committed between the read and the write of any archive or restore. */
  predicate ArchivesAtomic(s: System, es: seq<Event>)
    decreases |es|
  {
    es != [] ==> !StaleWrite(s, es[0]) && ArchivesAtomic(Step(s, es[0]), es[1..])
  }

  ghost predicate Increasing(q: seq<int>) {
    forall i, j :: 0 <= i < j < |q| ==> q[i] < q[j]
  }

  /** Every version counts mutations, in the row and in what the handlers in flight have read. */
  ghost predicate Exact(s: System) {
    && s.row.version == 1 + s.commits
    && Increasing(s.won) && (forall i :: 0 <= i < |s.won| ==> s.won[i] < s.row.version)
    && forall h :: h in s.inFlight && !s.inFlight[h].ForEdit? ==>
         s.inFlight[h].stamp <= s.commits && s.inFlight[h].version == 1 + s.inFlight[h].stamp
  }

  /** The row is behind, and no read in flight could put it right again. */
  ghost predicate Behind(s: System) {
    && s.row.version < 1 + s.commits
    && forall h :: h in s.inFlight && !s.inFlight[h].ForEdit? ==>
         && s.inFlight[h].stamp <= s.commits && s.inFlight[h].version <= 1 + s.inFlight[h].stamp
         && (s.inFlight[h].stamp < s.commits || s.inFlight[h].version < 1 + s.inFlight[h].stamp)
  }

  lemma StepExact(s: System, e: Event)
    requires Exact(s)
    ensures if StaleWrite(s, e) then Behind(Step(s, e)) else Exact(Step(s, e))
  {
  }

  lemma StepBehind(s: System, e: Event)
    requires Behind(s)
    ensures Behind(Step(s, e))
  {
  }

  lemma {:induction false} RunBehind(s: System, es: seq<Event>)
    requires Behind(s)
    ensures Behind(Run(s, es))
    decreases |es|
  {
    if es != [] {
      StepBehind(s, es[0]);
      RunBehind(Step(s, es[0]), es[1..]);
    }
  }

  lemma {:induction false} RunExactOrBehind(s: System, es: seq<Event>)
    requires Exact(s)
    ensures if ArchivesAtomic(s, es) then Exact(Run(s, es)) else Behind(Run(s, es))
    decreases |es|
  {
    if es != [] {
      StepExact(s, es[0]);
      if StaleWrite(s, es[0]) {
        RunBehind(Step(s, es[0]), es[1..]);
      } else {
        RunExactOrBehind(Step(s, es[0]), es[1..]);
      }
    }
  }

  /** At the end of any interleaving the version is one plus the number of committed mutations
      exactly when no archive or restore in it was written from an out-of-date read. */
  lemma VersionCountsMutationsIff(es: seq<Event>)
    ensures var end := Run(NEW_TASK, es);
            end.row.version == 1 + end.commits <==> ArchivesAtomic(NEW_TASK, es)
  {
    RunExactOrBehind(NEW_TASK, es);
  }

  /** With archives and restores atomic, no two successful edits ever carried the same version. */
  lemma OneWinnerPerVersion(es: seq<Event>, i: nat, j: nat)
    requires ArchivesAtomic(NEW_TASK, es) && i < j < |Run(NEW_TASK, es).won|
    ensures Run(NEW_TASK, es).won[i] < Run(NEW_TASK, es).won[j]
  {
    RunExactOrBehind(NEW_TASK, es);
  }

  // ---------------------------------------------------------------- who wrote what

  /** The edit that the event commits, if it carries the present version. */
  function EditCommitted(s: System, e: Event): Option<Edit> {
    if e.Commit? && e.handler in s.inFlight && s.inFlight[e.handler].ForEdit?
       && s.inFlight[e.handler].expected == s.row.version
    then Some(s.inFlight[e.handler].edit) else None
  }

  /** Where the last committed move or column deletion put the task. */
  function LastColumn(s: System, es: seq<Event>, column: Id): Id
    decreases |es|
  {
    if es == [] then column
    else
      var edit := EditCommitted(s, es[0]);
      LastColumn(Step(s, es[0]), es[1..],
                 if es[0].ColumnDeleted? then es[0].moveTo
                 else if edit.Some? && edit.value.Move? then edit.value.column else column)
  }

  /** The status that the last committed edit to name one, or to complete the task, gave it. */
  function LastStatus(s: System, es: seq<Event>, status: Status): Status
    decreases |es|
  {
    if es == [] then status
    else
      var edit := EditCommitted(s, es[0]);
      LastStatus(Step(s, es[0]), es[1..],
                 if edit.Some? && edit.value.Patch? && edit.value.status.Some? then edit.value.status.value
                 else if edit.Some? && edit.value.Move? && edit.value.completes then Finished else status)
  }

  /** Whether the last archive or restore to be written was an archive. */
  function LastArchived(s: System, es: seq<Event>, archived: bool): bool
    decreases |es|
  {
    if es == [] then archived
    else
      LastArchived(Step(s, es[0]), es[1..],
                   if es[0].Commit? && es[0].handler in s.inFlight && !s.inFlight[es[0].handler].ForEdit?
                   then s.inFlight[es[0].handler].ForArchive? else archived)
  }

  /** A request that nothing comes between succeeds: an edit that carries the present version of a live
      task, the archiving of a live task, the restoring of an archived one. */
  lemma UndisturbedRequests(s: System, h: Id, edit: Edit, now: int, clock: int)
    requires h !in s.inFlight
    ensures var v := s.row.version;
            var end := Step(Step(s, BeginEdit(h, edit, v)), Commit(h, now, clock));
            !s.row.archived ==> end.won == s.won + [v] && end.commits == s.commits + 1 && end.row.version == v + 1
                                && (edit.Move? ==> end.row.column == edit.column)
    ensures var end := Step(Step(s, BeginArchive(h)), Commit(h, now, clock));
            !s.row.archived ==>
              end.row == s.row.(archived := true, version := s.row.version + 1) && end.commits == s.commits + 1
    ensures var end := Step(Step(s, BeginRestore(h)), Commit(h, now, clock));
            s.row.archived ==>
              end.row == s.row.(archived := false, version := s.row.version + 1) && end.commits == s.commits + 1
  {
    WinningEdit(s.row, s.row.status, edit, now, clock);
  }

  /** Over any interleaving each part of the row is what the last committed request to write that
      part made it: no request touches the others. */
  lemma {:induction false} RowIsLastWrites(s: System, es: seq<Event>)
    ensures var row := Run(s, es).row;
            && row.column == LastColumn(s, es, s.row.column)
            && row.status == LastStatus(s, es, s.row.status)
            && row.archived == LastArchived(s, es, s.row.archived)
    decreases |es|
  {
    if es != [] {
      StepWrites(s, es[0]);
      RowIsLastWrites(Step(s, es[0]), es[1..]);
    }
  }

  lemma StepWrites(s: System, e: Event)
    ensures var row, edit := Step(s, e).row, EditCommitted(s, e);
            && row.column == (if e.ColumnDeleted? then e.moveTo
                              else if edit.Some? && edit.value.Move? then edit.value.column else s.row.column)
            && row.status == (if edit.Some? && edit.value.Patch? && edit.value.status.Some? then edit.value.status.value
                              else if edit.Some? && edit.value.Move? && edit.value.completes then Finished
                              else s.row.status)
            && row.archived == (if e.Commit? && e.handler in s.inFlight && !s.inFlight[e.handler].ForEdit?
                                then s.inFlight[e.handler].ForArchive? else s.row.archived)
  {
    if EditCommitted(s, e).Some? {
      var read := s.inFlight[e.handler];
      WinningEdit(s.row, read.previous, read.edit, e.now, e.clock);
    }
  }

  // ---------------------------------------------------------------- versions that come back

  /** The successful edits carried increasing versions, all below the present one. */
  ghost predicate Ahead(s: System) {
    Increasing(s.won) && forall i :: 0 <= i < |s.won| ==> s.won[i] < s.row.version
  }

  /** The event writes an archive or a restore, and an edit that carried a later version than it had
      read has won meanwhile. */
  predicate PutsBack(s: System, e: Event) {
    && e.Commit? && e.handler in s.inFlight && !s.inFlight[e.handler].ForEdit?
    && exists i :: 0 <= i < |s.won| && s.won[i] > s.inFlight[e.handler].version
  }

  lemma StepAheadIff(s: System, e: Event)
    requires Ahead(s)
    ensures Ahead(Step(s, e)) <==> !PutsBack(s, e)
  {
  }

  ghost predicate AlwaysAhead(s: System, es: seq<Event>)
    decreases |es|
  {
    Ahead(s) && (es != [] ==> AlwaysAhead(Step(s, es[0]), es[1..]))
  }

  predicate NeverPutsBack(s: System, es: seq<Event>)
    decreases |es|
  {
    es != [] ==> !PutsBack(s, es[0]) && NeverPutsBack(Step(s, es[0]), es[1..])
  }

  /** Throughout an interleaving, atomic archives or not, no version that an edit has won is ever
      reached again, and so none is won twice, exactly when no archive or restore puts it back. */
  lemma {:induction false} WonVersionsStayBehindIff(s: System, es: seq<Event>)
    requires Ahead(s)
    ensures AlwaysAhead(s, es) <==> NeverPutsBack(s, es)
    decreases |es|
  {
    if es != [] {
      StepAheadIff(s, es[0]);
      if Ahead(Step(s, es[0])) {
        WonVersionsStayBehindIff(Step(s, es[0]), es[1..]);
      }
    }
  }

  /** In every reachable state, atomic archives or not, a task is finished exactly when stamped. */
  lemma {:induction false} RunKeepsStamp(s: System, es: seq<Event>)
    requires StampedIffFinished(s.row)
    ensures StampedIffFinished(Run(s, es).row)
    decreases |es|
  {
    if es != [] {
      RunKeepsStamp(Step(s, es[0]), es[1..]);
    }
  }

  /** An archive that read version 1 and writes after two edits puts the version back to 2, and a
      second edit carrying version 2 then succeeds: two winners for one version. */
  lemma StaleArchiveRepeatsVersion()
    ensures var touch := Patch(None);
            var end := Run(NEW_TASK,
                [BeginArchive(9), BeginEdit(1, touch, 1), BeginEdit(2, touch, 2), BeginEdit(3, touch, 2)]
                                    + [Commit(1, 0, 0), Commit(2, 0, 0), Commit(9, 0, 0), Commit(3, 0, 0)]);
            end.won == [1, 2, 2] && end.commits == 4 && end.row.version == 3
  {
    var touch := Patch(None);
    RunFour(NEW_TASK, BeginArchive(9), BeginEdit(1, touch, 1), BeginEdit(2, touch, 2), BeginEdit(3, touch, 2),
            [Commit(1, 0, 0), Commit(2, 0, 0), Commit(9, 0, 0), Commit(3, 0, 0)]);
    var s4 := Step(Step(Step(Step(NEW_TASK, BeginArchive(9)), BeginEdit(1, touch, 1)), BeginEdit(2, touch, 2)),
        BeginEdit(3, touch, 2));
    RunFour(s4, Commit(1, 0, 0), Commit(2, 0, 0), Commit(9, 0, 0), Commit(3, 0, 0), []);
    var read1, read2, readArchive := ForEdit(touch, 1, Open), ForEdit(touch, 2, Open), ForArchive(1, 0);
    assert s4 == System(NEW_TASK.row, map[9 := readArchive, 1 := read1, 2 := read2, 3 := read2], 0, []);
  }

  lemma RunFour(s: System, a: Event, b: Event, c: Event, d: Event, rest: seq<Event>)
    ensures Run(s, [a, b, c, d] + rest) == Run(Step(Step(Step(Step(s, a), b), c), d), rest)
    ensures [a, b, c, d] + [] == [a, b, c, d]
  {
    var es := [a, b, c, d] + rest;
    assert es[1..] == [b, c, d] + rest && es[1..][1..] == [c, d] + rest;
    assert es[1..][1..][1..] == [d] + rest && es[1..][1..][1..][1..] == rest;
    assert Run(s, es) == Run(Step(s, a), es[1..]);
    assert Run(Step(s, a), es[1..]) == Run(Step(Step(s, a), b), es[1..][1..]);
    assert Run(Step(Step(s, a), b), es[1..][1..]) == Run(Step(Step(Step(s, a), b), c), es[1..][1..][1..]);
  }
}
