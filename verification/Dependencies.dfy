/** Task dependencies: "blocker -> blocked" rows between the tasks of one project, guarded by
    the cycle check, while tasks are archived, restored and completed around them.
    The UNIQUE constraint makes the pair of task ids a key, so a row is modelled by its pair. */
module Dependencies {
  import opened Common
  import opened Reachability
  import opened CycleCheck

  datatype Task = Task(project: Id, live: bool, done: bool)

  datatype State = State(tasks: map<Id, Task>, deps: Graph)

  datatype Command =
    | CreateTask(task: Id, project: Id)
    | SetDone(task: Id, done: bool)
    | CreateDependency(blocked: Id, blocker: Id)
    | DeleteDependency(task: Id, row: (Id, Id))
    | Archive(task: Id)
    | Restore(task: Id)

  datatype Reply = Done | Existing | Unchanged | NotFound | CrossProject | Circular | Conflict

  predicate Live(s: State, t: Id) {
    t in s.tasks && s.tasks[t].live
  }

  /** Foreign keys, the CHECK constraint, and the same-project rule. */
  ghost predicate Valid(s: State) {
    forall e :: e in s.deps ==>
      && e.0 in s.tasks && e.1 in s.tasks && e.0 != e.1
      && s.tasks[e.0].project == s.tasks[e.1].project
  }

  function LiveEdges(s: State): Graph {
    set e | e in s.deps && Live(s, e.0) && Live(s, e.1)
  }

  /** The rows the handler reads: those between live tasks of one project. */
  function ProjectEdges(s: State, project: Id): Graph {
    set e | e in LiveEdges(s) && s.tasks[e.0].project == project && s.tasks[e.1].project == project
  }

  /** The live unfinished blockers of a task, as its collaboration state reports them. */
  function Blocking(s: State, t: Id): set<Id> {
    set e | e in s.deps && e.1 == t && Live(s, e.0) && !s.tasks[e.0].done :: e.0
  }

  ghost function Step(s: State, c: Command): (State, Reply) {
    match c
    case CreateTask(t, project) =>
      if t in s.tasks then (s, Conflict)
      else (s.(tasks := s.tasks[t := Task(project, true, false)]), Done)
    case SetDone(t, done) =>
      if !Live(s, t) then (s, NotFound)
      else (s.(tasks := s.tasks[t := s.tasks[t].(done := done)]), Done)
    case CreateDependency(blocked, blocker) =>
      if !Live(s, blocked) || !Live(s, blocker) then (s, NotFound)
      else if s.tasks[blocker].project != s.tasks[blocked].project then (s, CrossProject)
      else if blocker == blocked || Reaches(ProjectEdges(s, s.tasks[blocked].project), blocked, blocker)
          then (s, Circular)
      else if (blocker, blocked) in s.deps then (s, Existing)
      else (s.(deps := s.deps + {(blocker, blocked)}), Done)
    case DeleteDependency(t, row) =>
      if !Live(s, t) || row !in s.deps || (t != row.0 && t != row.1) then (s, NotFound)
      else (s.(deps := s.deps - {row}), Done)
    case Archive(t) =>
      if !Live(s, t) then (s, NotFound)
      else (s.(tasks := s.tasks[t := s.tasks[t].(live := false)]), Done)
    case Restore(t) =>
      if t !in s.tasks then (s, NotFound)
      else if s.tasks[t].live then (s, Unchanged)
      else (s.(tasks := s.tasks[t := s.tasks[t].(live := true)]), Done)
  }

  ghost function Run(s: State, cs: seq<Command>): State
    decreases |cs|
  {
    if cs == [] then s else Run(Step(s, cs[0]).0, cs[1..])
  }

  /** One message about task t for each recipient. */
  method Address(recipients: set<Id>, t: Id) returns (messages: seq<(Id, Id)>)
    ensures forall m :: m in messages <==> m.1 == t && m.0 in recipients
    ensures forall i, j :: 0 <= i < j < |messages| ==> messages[i] != messages[j]
  {
    messages := [];
    var users := Enumerate(recipients);
    for k := 0 to |users|
      invariant forall m :: m in messages <==> m.1 == t && m.0 in users[..k]
      invariant forall i, j :: 0 <= i < j < |messages| ==> messages[i] != messages[j]
    {
      assert users[..k + 1] == users[..k] + [users[k]];
      messages := messages + [(users[k], t)];
    }
    assert users[..|users|] == users;
  }

  /** The two tables and the request handlers that change them. */
  class TaskGraph {
    var tasks: map<Id, Task>
    var deps: Graph

    ghost function Value(): State
      reads this
    {
      State(tasks, deps)
    }

    constructor ()
      ensures Value() == State(map[], {})
    {
      tasks, deps := map[], {};
    }

    method AddTask(t: Id, project: Id) returns (reply: Reply)
      modifies this
      ensures (Value(), reply) == Step(old(Value()), Command.CreateTask(t, project))
    {
      if t in tasks {
        return Conflict;
      }
      tasks := tasks[t := Task(project, true, false)];
      return Done;
    }

    method SetTaskDone(t: Id, done: bool) returns (reply: Reply)
      modifies this
      ensures (Value(), reply) == Step(old(Value()), Command.SetDone(t, done))
    {
      if t !in tasks || !tasks[t].live {
        return NotFound;
      }
      tasks := tasks[t := tasks[t].(done := done)];
      return Done;
    }

    method AddDependency(blocked: Id, blocker: Id) returns (reply: Reply)
      modifies this
      ensures (Value(), reply) == Step(old(Value()), Command.CreateDependency(blocked, blocker))
    {
      if blocked !in tasks || !tasks[blocked].live || blocker !in tasks || !tasks[blocker].live {
        return NotFound;
      }
      var project := tasks[blocked].project;
      if tasks[blocker].project != project {
        return CrossProject;
      }
      var rows := Enumerate(set e | e in deps
                                    && e.0 in tasks && tasks[e.0].live && tasks[e.0].project == project
                                    && e.1 in tasks && tasks[e.1].live && tasks[e.1].project == project);
      assert EdgeSet(rows) == ProjectEdges(Value(), project);
      var cycle := WouldCreateDependencyCycle(rows, blocker, blocked);
      if cycle {
        return Circular;
      }
      if (blocker, blocked) in deps {
        return Existing;
      }
      deps := deps + {(blocker, blocked)};
      return Done;
    }

    method RemoveDependency(t: Id, row: (Id, Id)) returns (reply: Reply)
      modifies this
      ensures (Value(), reply) == Step(old(Value()), Command.DeleteDependency(t, row))
    {
      if t !in tasks || !tasks[t].live || row !in deps || (t != row.0 && t != row.1) {
        return NotFound;
      }
      deps := deps - {row};
      return Done;
    }

    method ArchiveTask(t: Id) returns (reply: Reply)
      modifies this
      ensures (Value(), reply) == Step(old(Value()), Command.Archive(t))
    {
      if t !in tasks || !tasks[t].live {
        return NotFound;
      }
      tasks := tasks[t := tasks[t].(live := false)];
      return Done;
    }

    method RestoreTask(t: Id) returns (reply: Reply)
      modifies this
      ensures (Value(), reply) == Step(old(Value()), Command.Restore(t))
    {
      if t !in tasks {
        return NotFound;
      }
      if tasks[t].live {
        return Unchanged;
      }
      tasks := tasks[t := tasks[t].(live := true)];
      return Done;
    }

    /** Tells everyone who is assigned to or watches a live dependent, once per dependent. */
    method NotifyDependencyResolved(blocker: Id, assignees: map<Id, set<Id>>, watchers: map<Id, set<Id>>)
      returns (sent: seq<(Id, Id)>)
      ensures forall user: Id, t: Id :: (user, t) in sent <==>
        (blocker, t) in deps && Live(Value(), t) && user in Neighbours(assignees, t) + Neighbours(watchers, t)
      ensures forall i, j :: 0 <= i < j < |sent| ==> sent[i] != sent[j]
    {
      sent := [];
      var rows := Enumerate(set e | e in deps && e.0 == blocker);
      for i := 0 to |rows|
        invariant forall user: Id, t: Id :: (user, t) in sent <==>
          (blocker, t) in rows[..i] && Live(Value(), t) && user in Neighbours(assignees, t) + Neighbours(watchers, t)
        invariant forall i, j :: 0 <= i < j < |sent| ==> sent[i] != sent[j]
      {
        var blocked := rows[i].1;
        assert rows[i] in rows && rows[i] == (blocker, blocked) && rows[i] !in rows[..i];
        assert rows[..i + 1] == rows[..i] + [rows[i]];
        if blocked !in tasks || !tasks[blocked].live {
          continue;
        }
        var messages := Address(Neighbours(assignees, blocked) + Neighbours(watchers, blocked), blocked);
        sent := sent + messages;
      }
      assert rows[..|rows|] == rows;
    }
  }

  // ---------------------------------------------------------------- the cycle check and the live graph

  /** Looking only at the project's own rows decides reachability in the whole live graph. */
  lemma ProjectEdgesSuffice(s: State, a: Id, b: Id)
    requires Valid(s) && a in s.tasks
    ensures Reaches(ProjectEdges(s, s.tasks[a].project), a, b) <==> Reaches(LiveEdges(s), a, b)
  {
    var project := s.tasks[a].project;
    var g, h := ProjectEdges(s, project), LiveEdges(s);
    if Reaches(g, a, b) {
      ReachesInLarger(g, h, a, b);
    }
    if Reaches(h, a, b) {
      var p :| PathBetween(h, p, a, b);
      var inProject := set t | t in s.tasks && s.tasks[t].project == project;
      ClosedSetTrapsPath(h, inProject, p);
      assert PathBetween(g, p, a, b);
    }
  }

  /** Some live dependent of t already reaches some live blocker of t through live tasks. */
  ghost predicate UnsafeRestore(s: State, t: Id) {
    && t in s.tasks && !s.tasks[t].live
    && exists a, b :: (t, a) in s.deps && (b, t) in s.deps && Live(s, a) && Live(s, b) && Reaches(LiveEdges(s), a, b)
  }

  lemma StepKeepsValid(s: State, c: Command)
    requires Valid(s)
    ensures Valid(Step(s, c).0)
  {
  }

  lemma RestoreAcyclicIff(s: State, t: Id)
    requires Valid(s) && Acyclic(LiveEdges(s))
    ensures Acyclic(LiveEdges(Step(s, Command.Restore(t)).0)) <==> !UnsafeRestore(s, t)
  {
    if t in s.tasks && !s.tasks[t].live {
      var after := Step(s, Command.Restore(t)).0;
      var g, h := LiveEdges(s), LiveEdges(after);
      AddVertexAcyclicIff(g, h, t);
      if LoopsBack(g, h, t) {
        var a, b :| (t, a) in h && (b, t) in h && Reaches(g, a, b);
        assert Live(s, a) && Live(s, b);
      }
      if UnsafeRestore(s, t) {
        var a, b :| (t, a) in s.deps && (b, t) in s.deps && Live(s, a) && Live(s, b) && Reaches(g, a, b);
        assert (t, a) in h && (b, t) in h;
      }
    } else {
      assert Step(s, Command.Restore(t)).0 == s;
    }
  }

  /** From an acyclic live graph, one request of any kind leaves a cycle exactly when it is
      the restore of a task that loops back; the check on new rows admits every other one. */
  lemma StepAcyclicIff(s: State, c: Command)
    requires Valid(s) && Acyclic(LiveEdges(s))
    ensures Acyclic(LiveEdges(Step(s, c).0)) <==> !(c.Restore? && UnsafeRestore(s, c.task))
  {
    var after := Step(s, c).0;
    match c
    case Restore(t) => RestoreAcyclicIff(s, t);
    case CreateDependency(blocked, blocker) =>
      if after != s {
        ProjectEdgesSuffice(s, blocked, blocker);
        AddEdgeAcyclicIff(LiveEdges(s), blocker, blocked);
        assert LiveEdges(after) == LiveEdges(s) + {(blocker, blocked)};
      }
    case _ =>
      assert LiveEdges(after) <= LiveEdges(s);
      AcyclicInSmaller(LiveEdges(after), LiveEdges(s));
  }

  /** The check refuses a row exactly when that row would close a cycle among live tasks. */
  lemma CircularIff(s: State, blocked: Id, blocker: Id)
    requires Valid(s) && Acyclic(LiveEdges(s)) && Live(s, blocked) && Live(s, blocker)
    requires s.tasks[blocked].project == s.tasks[blocker].project
    ensures Step(s, Command.CreateDependency(blocked, blocker)).1 == Circular
            <==> !Acyclic(LiveEdges(s) + {(blocker, blocked)})
  {
    ProjectEdgesSuffice(s, blocked, blocker);
    AddEdgeAcyclicIff(LiveEdges(s), blocker, blocked);
    ReachesSelf(LiveEdges(s), blocked);
  }

  /** Two requests whose checks read the same state, and that both insert: the result is acyclic
      exactly when each request's blocked task does not already reach the other's blocker. */
  lemma ConcurrentChecksSafeIff(s: State, first: Command, second: Command)
    requires Valid(s) && Acyclic(LiveEdges(s)) && first.CreateDependency? && second.CreateDependency?
    requires Step(s, first).1 == Done && Step(s, second).1 == Done
    ensures Acyclic(LiveEdges(s) + {(first.blocker, first.blocked), (second.blocker, second.blocked)})
            <==> !(&& Reaches(LiveEdges(s), first.blocked, second.blocker)
                   && Reaches(LiveEdges(s), second.blocked, first.blocker))
  {
    var g, e, f := LiveEdges(s), (first.blocker, first.blocked), (second.blocker, second.blocked);
    ProjectEdgesSuffice(s, first.blocked, first.blocker);
    ProjectEdgesSuffice(s, second.blocked, second.blocker);
    AddEdgeAcyclicIff(g, e.0, e.1);
    AddEdgeAcyclicIff(g + {e}, f.0, f.1);
    ReachesThroughEdge(g, e.0, e.1, f.1, f.0);
    assert g + {e} + {f} == g + {e, f};
  }

  /** Any number of requests whose checks read the same state, and that all insert: the result is
      acyclic exactly when the links between their rows are - row to row, wherever the first one's
      blocked task already reaches the second one's blocker. */
  lemma ConcurrentChecksManyIff(s: State, rows: Graph)
    requires Valid(s) && Acyclic(LiveEdges(s))
    requires forall e :: e in rows ==> Step(s, CreateDependency(e.1, e.0)).1 == Done
    ensures Acyclic(LiveEdges(s) + rows) <==> Acyclic(Links(LiveEdges(s), rows))
  {
    AddEdgesAcyclicIff(LiveEdges(s), rows);
  }

  ghost predicate AlwaysAcyclic(s: State, cs: seq<Command>)
    decreases |cs|
  {
    Acyclic(LiveEdges(s)) && (cs != [] ==> AlwaysAcyclic(Step(s, cs[0]).0, cs[1..]))
  }

  ghost predicate RestoresSafely(s: State, cs: seq<Command>)
    decreases |cs|
  {
    cs != [] ==>
      && !(cs[0].Restore? && UnsafeRestore(s, cs[0].task))
      && RestoresSafely(Step(s, cs[0]).0, cs[1..])
  }

  /** Over any serial run the live graph is acyclic throughout exactly when no restore in it
      brings back a task that loops back at that moment. */
  lemma {:induction false} RunAcyclicIff(s: State, cs: seq<Command>)
    requires Valid(s) && Acyclic(LiveEdges(s))
    ensures AlwaysAcyclic(s, cs) <==> RestoresSafely(s, cs)
    decreases |cs|
  {
    if cs != [] {
      StepKeepsValid(s, cs[0]);
      StepAcyclicIff(s, cs[0]);
      if Acyclic(LiveEdges(Step(s, cs[0]).0)) {
        RunAcyclicIff(Step(s, cs[0]).0, cs[1..]);
      }
    }
  }

  /** Without restores every serial run keeps the live graph acyclic. */
  lemma {:induction false} RunWithoutRestoreAcyclic(s: State, cs: seq<Command>)
    requires Valid(s) && Acyclic(LiveEdges(s))
    requires forall c :: c in cs ==> !c.Restore?
    ensures Acyclic(LiveEdges(Run(s, cs)))
    decreases |cs|
  {
    if cs != [] {
      StepKeepsValid(s, cs[0]);
      StepAcyclicIff(s, cs[0]);
      RunWithoutRestoreAcyclic(Step(s, cs[0]).0, cs[1..]);
    }
  }

  /** No row is created while a task of its project is archived. */
  ghost predicate CreatesOnlyInLiveProjects(s: State, cs: seq<Command>)
    decreases |cs|
  {
    cs != [] ==>
      && (cs[0].CreateDependency? && cs[0].blocked in s.tasks ==>
            forall t :: t in s.tasks && s.tasks[t].project == s.tasks[cs[0].blocked].project ==> s.tasks[t].live)
      && CreatesOnlyInLiveProjects(Step(s, cs[0]).0, cs[1..])
  }

  /** Under that discipline restores are harmless: the graph over all tasks, archived ones
      included, stays acyclic, and with it the live graph. */
  lemma {:induction false} FullGraphAcyclic(s: State, cs: seq<Command>)
    requires Valid(s) && Acyclic(s.deps) && CreatesOnlyInLiveProjects(s, cs)
    ensures Acyclic(Run(s, cs).deps) && Acyclic(LiveEdges(Run(s, cs)))
    decreases |cs|
  {
    if cs == [] {
      AcyclicInSmaller(LiveEdges(s), s.deps);
    } else {
      var after := Step(s, cs[0]).0;
      StepKeepsValid(s, cs[0]);
      if cs[0].CreateDependency? && after != s {
        var blocked, blocker := cs[0].blocked, cs[0].blocker;
        NoArchivedTaskOnPath(s, blocked, blocker);
        AddEdgeAcyclicIff(s.deps, blocker, blocked);
      } else {
        AcyclicInSmaller(after.deps, s.deps);
      }
      FullGraphAcyclic(after, cs[1..]);
    }
  }

  lemma NoArchivedTaskOnPath(s: State, a: Id, b: Id)
    requires Valid(s) && a in s.tasks
    requires forall t :: t in s.tasks && s.tasks[t].project == s.tasks[a].project ==> s.tasks[t].live
    ensures Reaches(s.deps, a, b) ==> Reaches(ProjectEdges(s, s.tasks[a].project), a, b)
  {
    if Reaches(s.deps, a, b) {
      var p :| PathBetween(s.deps, p, a, b);
      var inProject := set t | t in s.tasks && s.tasks[t].project == s.tasks[a].project;
      ClosedSetTrapsPath(s.deps, inProject, p);
      assert PathBetween(ProjectEdges(s, s.tasks[a].project), p, a, b);
    }
  }

  // ---------------------------------------------------------------- what the requests do

  /** A dependency is created exactly between two live tasks of one project, if it is not there yet
      and would close no cycle among the live tasks; it is the only thing that changes. */
  lemma CreatedIff(s: State, blocked: Id, blocker: Id)
    requires Valid(s) && Acyclic(LiveEdges(s))
    ensures var (after, reply) := Step(s, Command.CreateDependency(blocked, blocker));
            && (reply == Done
                <==> && Live(s, blocked) && Live(s, blocker) && s.tasks[blocker].project == s.tasks[blocked].project
                     && (blocker, blocked) !in s.deps && Acyclic(LiveEdges(s) + {(blocker, blocked)}))
            && (reply == Existing ==> (blocker, blocked) in s.deps)
            && after == if reply == Done then s.(deps := s.deps + {(blocker, blocked)}) else s
  {
    if Live(s, blocked) && Live(s, blocker) && s.tasks[blocker].project == s.tasks[blocked].project {
      CircularIff(s, blocked, blocker);
    }
  }

  /** Asking for a dependency that is already there between live tasks says so. */
  lemma ExistingFound(s: State, blocked: Id, blocker: Id)
    requires Valid(s) && Acyclic(LiveEdges(s)) && Live(s, blocked) && Live(s, blocker) && (blocker, blocked) in s.deps
    ensures Step(s, Command.CreateDependency(blocked, blocker)) == (s, Existing)
  {
    assert LiveEdges(s) + {(blocker, blocked)} == LiveEdges(s);
    CircularIff(s, blocked, blocker);
  }

  /** A row can be deleted from either of its ends, if that task is live; every other row stays. */
  lemma DeletedIff(s: State, t: Id, row: (Id, Id))
    ensures var (after, reply) := Step(s, Command.DeleteDependency(t, row));
            && (reply == Done <==> Live(s, t) && row in s.deps && (row.0 == t || row.1 == t))
            && after.tasks == s.tasks
            && forall e :: e in after.deps <==> e in s.deps && !(reply == Done && e == row)
  {
  }

  /** The other requests change one task, and of it only what they are about. */
  lemma TaskRequestsExact(s: State, t: Id, project: Id, done: bool)
    ensures Step(s, Command.CreateTask(t, project))
            == if t in s.tasks then (s, Conflict) else (s.(tasks := s.tasks[t := Task(project, true, false)]), Done)
    ensures Step(s, Command.SetDone(t, done))
            == if t !in s.tasks || !s.tasks[t].live then (s, NotFound)
               else (s.(tasks := s.tasks[t := Task(s.tasks[t].project, true, done)]), Done)
    ensures Step(s, Command.Archive(t))
            == if t !in s.tasks || !s.tasks[t].live then (s, NotFound)
               else (s.(tasks := s.tasks[t := Task(s.tasks[t].project, false, s.tasks[t].done)]), Done)
    ensures Step(s, Command.Restore(t))
            == if t !in s.tasks then (s, NotFound) else if s.tasks[t].live then (s, Unchanged)
               else (s.(tasks := s.tasks[t := Task(s.tasks[t].project, true, s.tasks[t].done)]), Done)
  {
  }

  /** A task is reported as blocked by exactly the live unfinished tasks it depends on. */
  lemma BlockingIff(s: State, blocker: Id, t: Id)
    ensures blocker in Blocking(s, t)
      <==> (blocker, t) in s.deps && blocker in s.tasks && s.tasks[blocker].live && !s.tasks[blocker].done
  {
    if (blocker, t) in s.deps && Live(s, blocker) && !s.tasks[blocker].done {
      assert (blocker, t).1 == t;
    }
  }

  // ---------------------------------------------------------------- progress

  /** While the live graph is acyclic, unfinished live work always includes a task that nothing blocks. */
  lemma SomeTaskUnblocked(s: State, t: Id) returns (free: Id)
    requires Acyclic(LiveEdges(s)) && Live(s, t) && !s.tasks[t].done
    ensures Live(s, free) && !s.tasks[free].done && Blocking(s, free) == {}
  {
    var unfinished := set x | x in s.tasks && Live(s, x) && !s.tasks[x].done;
    assert t in unfinished;
    free := SourceIn(LiveEdges(s), unfinished);
    assert forall x :: x in Blocking(s, free) ==> x in unfinished && (x, free) in LiveEdges(s);
  }

  /** Completing a live task takes exactly that task out of every blocking set; reopening puts
      it back into exactly the sets of its dependents. */
  lemma CompletionUnblocks(s: State, b: Id, t: Id)
    requires Live(s, b)
    ensures Blocking(Step(s, Command.SetDone(b, true)).0, t) == Blocking(s, t) - {b}
    ensures Blocking(Step(s, Command.SetDone(b, false)).0, t) == Blocking(s, t) + (if (b, t) in s.deps then {b} else {})
  {
    var finished, reopened := Step(s, Command.SetDone(b, true)).0, Step(s, Command.SetDone(b, false)).0;
    forall x
      ensures x in Blocking(finished, t) <==> x in Blocking(s, t) - {b}
      ensures x in Blocking(reopened, t) <==> x in Blocking(s, t) + (if (b, t) in s.deps then {b} else {})
    {
      var e := (x, t);
      assert x in Blocking(s, t) <==> e in s.deps && Live(s, x) && !s.tasks[x].done;
    }
  }

  // ---------------------------------------------------------------- what the check does not see

  /** A row whose blocked side cannot leave a set without the blocker is accepted. */
  lemma RowAccepted(s: State, blocked: Id, blocker: Id, inside: set<Id>)
    requires Live(s, blocked) && Live(s, blocker) && s.tasks[blocker].project == s.tasks[blocked].project
    requires Closed(s.deps, inside) || Closed(LiveEdges(s), inside)
    requires blocked in inside && blocker !in inside
    ensures Step(s, Command.CreateDependency(blocked, blocker)).0 == s.(deps := s.deps + {(blocker, blocked)})
  {
    var rows := ProjectEdges(s, s.tasks[blocked].project);
    if Reaches(rows, blocked, blocker) {
      ReachStaysInside(rows, inside, blocked, blocker);
    }
  }

  const RESTORE_RUN := [
    Command.CreateTask(1, 0), Command.CreateTask(2, 0), Command.CreateTask(3, 0),
    Command.CreateDependency(2, 1), Command.CreateDependency(3, 2), Command.Archive(2),
    Command.CreateDependency(1, 3), Command.Restore(2)]

  ghost function Board(two: bool, deps: Graph): State {
    State(map[1 := Task(0, true, false), 2 := Task(0, two, false), 3 := Task(0, true, false)], deps)
  }

  lemma RestoreRunEnds()
    ensures Run(State(map[], {}), RESTORE_RUN) == Board(true, {(1, 2), (2, 3), (3, 1)})
  {
    var t1, t2 := map[1 := Task(0, true, false)], map[1 := Task(0, true, false), 2 := Task(0, true, false)];
    var s3 := Board(true, {});
    RowAccepted(s3, 2, 1, {2});
    var s4 := Board(true, {(1, 2)});
    RowAccepted(s4, 3, 2, {3});
    var s5, s6 := Board(true, {(1, 2), (2, 3)}), Board(false, {(1, 2), (2, 3)});
    RowAccepted(s6, 1, 3, {1});
    var s7, s8 := Board(false, {(1, 2), (2, 3), (3, 1)}), Board(true, {(1, 2), (2, 3), (3, 1)});
    assert RunThrough(RESTORE_RUN, [State(map[], {}), State(t1, {}), State(t2, {}), s3, s4, s5, s6, s7, s8]);
    RunVisits(RESTORE_RUN, [State(map[], {}), State(t1, {}), State(t2, {}), s3, s4, s5, s6, s7, s8]);
  }

  ghost predicate RunThrough(cs: seq<Command>, states: seq<State>) {
    |states| == |cs| + 1 && forall i :: 0 <= i < |cs| ==> Step(states[i], cs[i]).0 == states[i + 1]
  }

  lemma {:induction false} RunVisits(cs: seq<Command>, states: seq<State>)
    requires RunThrough(cs, states)
    ensures Run(states[0], cs) == states[|cs|]
    decreases |cs|
  {
    if cs != [] {
      assert Step(states[0], cs[0]).0 == states[1];
      RunVisits(cs[1..], states[1..]);
    }
  }

  /** A run in which every request succeeds and that still ends in a deadlock: 1 blocks 2, 2 blocks
      3, 2 is archived, 3 is made to block 1 (the check cannot see 2), and 2 is restored. */
  lemma RestoreClosesCycle()
    ensures var end := Run(State(map[], {}), RESTORE_RUN);
            && !Acyclic(LiveEdges(end))
            && end.tasks.Keys == {1, 2, 3}
            && forall t :: t in end.tasks ==> Live(end, t) && !end.tasks[t].done && Blocking(end, t) != {}
  {
    RestoreRunEnds();
    var end := Board(true, {(1, 2), (2, 3), (3, 1)});
    assert LiveEdges(end) == end.deps;
    assert Path(LiveEdges(end), [1, 2, 3, 1]);
    BlockedBy(end, 3, 1);
    BlockedBy(end, 1, 2);
    BlockedBy(end, 2, 3);
  }

  /** Restoring a task just archived, and deleting a row just created, put everything back. */
  lemma UndoneExactly(s: State, t: Id, blocker: Id)
    requires Live(s, t)
    ensures Run(s, [Archive(t), Restore(t)]) == s
    ensures Step(s, CreateDependency(t, blocker)).1 == Done ==>
      Run(s, [CreateDependency(t, blocker), DeleteDependency(t, (blocker, t))]) == s
  {
    RunVisits([Archive(t), Restore(t)], [s, Step(s, Archive(t)).0, s]);
    var created := Step(s, CreateDependency(t, blocker));
    if created.1 == Done {
      assert created.0.deps - {(blocker, t)} == s.deps;
      RunVisits([CreateDependency(t, blocker), DeleteDependency(t, (blocker, t))], [s, created.0, s]);
    }
  }

  /** Two checks on the same state can pass rows that together block two tasks on each other. */
  lemma ConcurrentChecksClose() returns (s: State)
    ensures Valid(s) && Acyclic(LiveEdges(s))
    ensures Step(s, CreateDependency(1, 2)).1 == Done && Step(s, CreateDependency(2, 1)).1 == Done
    ensures !Acyclic(LiveEdges(s) + {(2, 1), (1, 2)})
  {
    s := Board(true, {});
    assert forall p :: Path(LiveEdges(s), p) && |p| > 1 ==> (p[0], p[1]) in LiveEdges(s);
    RowAccepted(s, 1, 2, {1});
    RowAccepted(s, 2, 1, {2});
    assert (2, 1) in Step(s, CreateDependency(1, 2)).0.deps && (1, 2) in Step(s, CreateDependency(2, 1)).0.deps;
    assert Path(LiveEdges(s) + {(2, 1), (1, 2)}, [1, 2, 1]);
  }

  lemma NothingReaches(g: Graph, a: Id, b: Id)
    requires g == {}
    ensures Reaches(g, a, b) <==> a == b
  {
    ReachesSelf(g, a);
    if Reaches(g, a, b) {
      ReachStaysInside(g, {a}, a, b);
    }
  }

  /** Three checks on the same state can pass rows of which any two are harmless together and all
      three close a cycle. */
  lemma ThreeChecksClose() returns (s: State)
    ensures Valid(s) && Acyclic(LiveEdges(s))
    ensures forall e :: e in {(1, 2), (2, 3), (3, 1)} ==> Step(s, CreateDependency(e.1, e.0)).1 == Done
    ensures Acyclic(LiveEdges(s) + {(1, 2), (2, 3)}) && Acyclic(LiveEdges(s) + {(2, 3), (3, 1)})
            && Acyclic(LiveEdges(s) + {(3, 1), (1, 2)})
    ensures !Acyclic(LiveEdges(s) + {(1, 2), (2, 3), (3, 1)})
  {
    s := Board(true, {});
    assert LiveEdges(s) == {};
    assert forall p :: Path(LiveEdges(s), p) && |p| > 1 ==> (p[0], p[1]) in LiveEdges(s);
    AcceptedAlone(s, 1, 2);
    AcceptedAlone(s, 2, 3);
    AcceptedAlone(s, 3, 1);
    NothingReaches(LiveEdges(s), 3, 1);
    NothingReaches(LiveEdges(s), 1, 2);
    NothingReaches(LiveEdges(s), 2, 3);
    ConcurrentChecksSafeIff(s, CreateDependency(2, 1), CreateDependency(3, 2));
    ConcurrentChecksSafeIff(s, CreateDependency(3, 2), CreateDependency(1, 3));
    ConcurrentChecksSafeIff(s, CreateDependency(1, 3), CreateDependency(2, 1));
    assert Path(LiveEdges(s) + {(1, 2), (2, 3), (3, 1)}, [1, 2, 3, 1]);
  }

  lemma AcceptedAlone(s: State, blocker: Id, blocked: Id)
    requires s == Board(true, {}) && blocker in {1, 2, 3} && blocked in {1, 2, 3} && blocker != blocked
    ensures Step(s, CreateDependency(blocked, blocker)).1 == Done
  {
    RowAccepted(s, blocked, blocker, {blocked});
    assert (blocker, blocked) in Step(s, CreateDependency(blocked, blocker)).0.deps;
  }

  lemma BlockedBy(s: State, blocker: Id, t: Id)
    requires (blocker, t) in s.deps && Live(s, blocker) && !s.tasks[blocker].done
    ensures Blocking(s, t) != {}
  {
    assert blocker in Blocking(s, t);
  }
}
