/** The hourly job that reminds the assignees of a task of its deadline. Times are in seconds. */
module Reminders {
  import opened Common

  const HOUR: int := 3600
  const AHEAD: int := 24 * HOUR
  const QUIET: int := 18 * HOUR

  /** A task with its rows in the assignee table. */
  datatype Task = Task(id: Id, due: Option<int>, done: bool, archived: bool, assignees: seq<Id>)

  /** A notification of kind "deadline_soon". */
  datatype Notice = Notice(user: Id, task: Id, createdAt: int)

  /** The tables, and every notice ever created, in order. */
  datatype State = State(tasks: seq<Task>, notices: seq<Notice>, sent: seq<Notice>)

  /** One run of the job, any change at all to the tasks and their assignees, or the deletion of a
      notice by its user. A run reads the time once; each notice it inserts is stamped by a later
      reading of the clock. */
  datatype Event = Pass(now: int, clock: nat -> int) | Change(tasks: seq<Task>) | Dismiss(index: nat)

  /** The tasks the job looks at. */
  predicate DueSoon(t: Task, now: int) {
    t.due.Some? && now < t.due.value <= now + AHEAD && !t.done && !t.archived
  }

  predicate Recent(notices: seq<Notice>, user: Id, task: Id, now: int) {
    exists n :: n in notices && n.user == user && n.task == task && n.createdAt >= now - QUIET
  }

  // ---------------------------------------------------------------- one run of the job

  function Remind(notices: seq<Notice>, task: Id, user: Id, now: int, clock: nat -> int): (after: seq<Notice>)
    ensures notices <= after
  {
    if Recent(notices, user, task, now) then notices else notices + [Notice(user, task, clock(|notices|))]
  }

  function RemindAll(notices: seq<Notice>, task: Id, users: seq<Id>, now: int, clock: nat -> int): (after: seq<Notice>)
    ensures notices <= after
  {
    if users == [] then notices
    else
      var last := |users| - 1;
      Remind(RemindAll(notices, task, users[..last], now, clock), task, users[last], now, clock)
  }

  function PassOver(notices: seq<Notice>, tasks: seq<Task>, now: int, clock: nat -> int): (after: seq<Notice>)
    ensures notices <= after
  {
    if tasks == [] then notices
    else
      var last := tasks[|tasks| - 1];
      var before := PassOver(notices, tasks[..|tasks| - 1], now, clock);
      if DueSoon(last, now) then RemindAll(before, last.id, last.assignees, now, clock) else before
  }

  function Without(notices: seq<Notice>, index: nat): seq<Notice> {
    if index < |notices| then notices[..index] + notices[index + 1..] else notices
  }

  function Step(s: State, e: Event): State {
    match e
    case Pass(now, clock) =>
      var after := PassOver(s.notices, s.tasks, now, clock);
      s.(notices := after, sent := s.sent + after[|s.notices|..])
    case Change(tasks) => s.(tasks := tasks)
    case Dismiss(index) => s.(notices := Without(s.notices, index))
  }

  function Run(s: State, es: seq<Event>): State {
    if es == [] then s else Step(Run(s, es[..|es| - 1]), es[|es| - 1])
  }

  class Reminder {
    var tasks: seq<Task>
    var notices: seq<Notice>

    constructor ()
      ensures tasks == [] && notices == []
    {
      tasks, notices := [], [];
    }

    method DeadlineReminders(now: int, clock: nat -> int) returns (created: nat)
      modifies this`notices
      ensures notices == PassOver(old(notices), tasks, now, clock)
      ensures created == |notices| - |old(notices)|
    {
      created := 0;
      for i := 0 to |tasks|
        invariant notices == PassOver(old(notices), tasks[..i], now, clock)
        invariant created == |notices| - |old(notices)|
      {
        assert tasks[..i + 1][..i] == tasks[..i];
        var task := tasks[i];
        if DueSoon(task, now) {
          ghost var before := notices;
          for j := 0 to |task.assignees|
            invariant notices == RemindAll(before, task.id, task.assignees[..j], now, clock)
            invariant created == |notices| - |old(notices)|
          {
            assert task.assignees[..j + 1][..j] == task.assignees[..j];
            var user := task.assignees[j];
            if !Recent(notices, user, task.id, now) {
              notices := notices + [Notice(user, task.id, clock(|notices|))];
              created := created + 1;
            }
          }
          assert task.assignees[..|task.assignees|] == task.assignees;
        }
      }
      assert tasks[..|tasks|] == tasks;
    }
  }

  // ---------------------------------------------------------------- the reminders of one pair

  /** When a user was reminded of a task. */
  ghost function Times(notices: seq<Notice>, user: Id, task: Id): seq<int> {
    if notices == [] then []
    else
      var last := notices[|notices| - 1];
      Times(notices[..|notices| - 1], user, task) + if last.user == user && last.task == task then [last.createdAt]
          else []
  }

  lemma {:induction false} TimesMembers(notices: seq<Notice>, user: Id, task: Id)
    ensures forall c :: c in Times(notices, user, task) <==> Notice(user, task, c) in notices
  {
    if notices != [] {
      var init := notices[..|notices| - 1];
      TimesMembers(init, user, task);
      assert notices == init + [notices[|notices| - 1]];
    }
  }

  /** What a run may do to the reminders of one pair: nothing, or add one, provided the last is more
      than the quiet period ago. */
  ghost predicate Quietly(before: seq<int>, after: seq<int>, now: int) {
    || after == before
    || (&& |after| == |before| + 1 && after[..|before|] == before && now <= after[|before|]
        && forall c :: c in before ==> c + QUIET < now)
  }

  lemma QuietlyOnce(a: seq<int>, b: seq<int>, c: seq<int>, now: int)
    requires Quietly(a, b, now) && Quietly(b, c, now)
    ensures Quietly(a, c, now)
  {
    if a != b {
      assert b[|a|] in b && QUIET > 0;
    }
  }

  /** The loops add a reminder of the pair only if the task is due soon, and then quietly. */
  ghost predicate Reminded(before: seq<Notice>, after: seq<Notice>, user: Id, task: Id, now: int) {
    Quietly(Times(before, user, task), Times(after, user, task), now)
  }

  lemma RemindsQuietly(notices: seq<Notice>, t: Id, u: Id, now: int, clock: nat -> int, user: Id, task: Id)
    requires forall k :: clock(k) >= now
    ensures Reminded(notices, Remind(notices, t, u, now, clock), user, task, now)
    ensures t != task || u != user ==>
            Times(Remind(notices, t, u, now, clock), user, task) == Times(notices, user, task)
  {
    TimesMembers(notices, user, task);
    var n := Notice(u, t, clock(|notices|));
    assert (notices + [n])[..|notices|] == notices;
  }

  lemma {:induction false} RemindAllQuietly(notices: seq<Notice>, t: Id, us: seq<Id>, now: int, clock: nat -> int,
                                             user: Id, task: Id)
    requires forall k :: clock(k) >= now
    ensures Reminded(notices, RemindAll(notices, t, us, now, clock), user, task, now)
    ensures t != task || user !in us ==>
            Times(RemindAll(notices, t, us, now, clock), user, task) == Times(notices, user, task)
  {
    if us != [] {
      var last := |us| - 1;
      var mid := RemindAll(notices, t, us[..last], now, clock);
      RemindAllQuietly(notices, t, us[..last], now, clock, user, task);
      RemindsQuietly(mid, t, us[last], now, clock, user, task);
      QuietlyOnce(Times(notices, user, task), Times(mid, user, task),
                  Times(RemindAll(notices, t, us, now, clock), user, task), now);
    }
  }

  lemma {:induction false} PassQuietly(notices: seq<Notice>, tasks: seq<Task>, now: int, clock: nat -> int,
                                             user: Id, task: Id)
    requires forall k :: clock(k) >= now
    ensures Reminded(notices, PassOver(notices, tasks, now, clock), user, task, now)
    ensures (forall t :: t in tasks && t.id == task && DueSoon(t, now) ==> user !in t.assignees) ==>
              Times(PassOver(notices, tasks, now, clock), user, task) == Times(notices, user, task)
  {
    if tasks != [] {
      var init, last := tasks[..|tasks| - 1], tasks[|tasks| - 1];
      PassQuietly(notices, init, now, clock, user, task);
      if DueSoon(last, now) {
        var mid := PassOver(notices, init, now, clock);
        RemindAllQuietly(mid, last.id, last.assignees, now, clock, user, task);
        QuietlyOnce(Times(notices, user, task), Times(mid, user, task),
                    Times(PassOver(notices, tasks, now, clock), user, task), now);
      }
      assert last in tasks;
    }
  }

  lemma {:induction false} TimesConcat(a: seq<Notice>, b: seq<Notice>, user: Id, task: Id)
    ensures Times(a + b, user, task) == Times(a, user, task) + Times(b, user, task)
  {
    if b == [] {
      assert a + b == a;
    } else {
      TimesConcat(a, b[..|b| - 1], user, task);
      assert (a + b)[..|a + b| - 1] == a + b[..|b| - 1];
    }
  }

  predicate Concerns(notices: seq<Notice>, index: nat, user: Id, task: Id) {
    index < |notices| && notices[index].user == user && notices[index].task == task
  }

  lemma TimesAround(a: seq<Notice>, n: Notice, b: seq<Notice>, user: Id, task: Id)
    ensures Times(a + [n] + b, user, task)
            == Times(a, user, task) + (if n.user == user && n.task == task then [n.createdAt] else [])
                + Times(b, user, task)
  {
    TimesConcat(a + [n], b, user, task);
    assert (a + [n])[..|a + [n]| - 1] == a;
  }

  lemma TimesSplit(notices: seq<Notice>, index: nat, user: Id, task: Id)
    requires index < |notices|
    ensures Times(Without(notices, index), user, task)
            == Times(notices[..index], user, task) + Times(notices[index + 1..], user, task)
    ensures Times(notices, user, task)
            == Times(notices[..index], user, task)
               + (if Concerns(notices, index, user, task) then [notices[index].createdAt] else [])
               + Times(notices[index + 1..], user, task)
  {
    var a, n, b := notices[..index], notices[index], notices[index + 1..];
    assert notices == a + [n] + b;
    TimesAround(a, n, b, user, task);
    TimesConcat(a, b, user, task);
  }

  /** A deletion takes at most one reminder out of the pair's. */
  lemma TimesWithout(notices: seq<Notice>, index: nat, user: Id, task: Id)
    ensures !Concerns(notices, index, user, task) ==>
            Times(Without(notices, index), user, task) == Times(notices, user, task)
    ensures Concerns(notices, index, user, task) ==>
            OneDropped(Times(notices, user, task), Times(Without(notices, index), user, task))
  {
    if index < |notices| {
      TimesSplit(notices, index, user, task);
      var a, b := Times(notices[..index], user, task), Times(notices[index + 1..], user, task);
      if Concerns(notices, index, user, task) {
        DroppedMiddle(a, notices[index].createdAt, b);
      } else {
        assert a + [] + b == a + b;
      }
    }
  }

  ghost predicate OneDropped(before: seq<int>, after: seq<int>) {
    exists j :: 0 <= j < |before| && after == Dropped(before, j)
  }

  lemma DroppedMiddle(a: seq<int>, c: int, b: seq<int>)
    ensures OneDropped(a + [c] + b, a + b)
  {
    assert Dropped(a + [c] + b, |a|) == a + b;
  }

  function Dropped(times: seq<int>, j: nat): seq<int>
    requires j < |times|
  {
    times[..j] + times[j + 1..]
  }

  // ---------------------------------------------------------------- dismissals

  function DismissalOf(s: State, e: Event, user: Id, task: Id): nat {
    if e.Dismiss? && Concerns(s.notices, e.index, user, task) then 1 else 0
  }

  /** How many reminders of the pair were deleted in the run. */
  function Dismissed(s: State, es: seq<Event>, user: Id, task: Id): nat {
    if es == [] then 0
    else
      var init := es[..|es| - 1];
      Dismissed(s, init, user, task) + DismissalOf(Run(s, init), es[|es| - 1], user, task)
  }

  lemma PassRecords(s: State, now: int, clock: nat -> int, user: Id, task: Id)
    ensures var after := Step(s, Pass(now, clock));
            exists new_ :: Times(after.notices, user, task) == Times(s.notices, user, task) + new_
                           && Times(after.sent, user, task) == Times(s.sent, user, task) + new_
  {
    var after := PassOver(s.notices, s.tasks, now, clock);
    var added := after[|s.notices|..];
    assert after == s.notices + added;
    TimesConcat(s.notices, added, user, task);
    TimesConcat(s.sent, added, user, task);
  }

  /** The reminders of a pair ever created are those still there and those deleted. */
  lemma {:induction false} RemindersConserved(s: State, es: seq<Event>, user: Id, task: Id)
    requires Times(s.sent, user, task) == Times(s.notices, user, task)
    ensures var end := Run(s, es);
            |Times(end.sent, user, task)| == |Times(end.notices, user, task)| + Dismissed(s, es, user, task)
    ensures var end := Run(s, es);
            Dismissed(s, es, user, task) == 0 ==> Times(end.sent, user, task) == Times(end.notices, user, task)
  {
    if es != [] {
      var init, last := es[..|es| - 1], es[|es| - 1];
      RemindersConserved(s, init, user, task);
      var mid := Run(s, init);
      match last
      case Pass(now, clock) =>
        PassRecords(mid, now, clock, user, task);
      case Change(_) =>
      case Dismiss(index) => TimesWithout(mid.notices, index, user, task);
    }
  }

  // ---------------------------------------------------------------- spacing

  /** The clock readings of a run come after the run's own reading. */
  ghost predicate Timely(es: seq<Event>) {
    forall e :: e in es && e.Pass? ==> forall k :: e.clock(k) >= e.now
  }

  ghost predicate Spaced(times: seq<int>) {
    forall i, j :: 0 <= i < j < |times| ==> times[i] + QUIET < times[j]
  }

  /** Whatever happens to the tasks, and whenever the job runs, even out of order, two reminders of
      the same user and task that are there together are more than eighteen hours apart; and so are
      any two ever created if the user deleted none of them. */
  lemma RemindersSpaced(s: State, es: seq<Event>, user: Id, task: Id)
    requires Timely(es) && Spaced(Times(s.notices, user, task))
    requires Times(s.sent, user, task) == Times(s.notices, user, task)
    ensures Spaced(Times(Run(s, es).notices, user, task))
    ensures Dismissed(s, es, user, task) == 0 ==> Spaced(Times(Run(s, es).sent, user, task))
  {
    RunKeepsSpaced(s, es, user, task);
    RemindersConserved(s, es, user, task);
  }

  lemma {:induction false} RunKeepsSpaced(s: State, es: seq<Event>, user: Id, task: Id)
    requires Timely(es) && Spaced(Times(s.notices, user, task))
    ensures Spaced(Times(Run(s, es).notices, user, task))
  {
    if es != [] {
      var init, last := es[..|es| - 1], es[|es| - 1];
      RunKeepsSpaced(s, init, user, task);
      assert last in es;
      var mid := Run(s, init);
      match last
      case Pass(now, clock) =>
        PassQuietly(mid.notices, mid.tasks, now, clock, user, task);
        SpacedStep(Times(mid.notices, user, task), Times(Run(s, es).notices, user, task), now);
      case Change(_) =>
      case Dismiss(index) => TimesWithout(mid.notices, index, user, task);
    }
  }

  lemma SpacedStep(before: seq<int>, after: seq<int>, now: int)
    requires Quietly(before, after, now) && Spaced(before)
    ensures Spaced(after)
  {
    if after != before {
      forall i, j | 0 <= i < j < |after|
        ensures after[i] + QUIET < after[j]
      {
        assert after[..|before|][i] == before[i] && before[i] in before;
        if j < |before| {
          assert after[..|before|][j] == before[j];
        }
      }
    }
  }

  /** The run of the job reminds the pair within the quiet period of a reminder that is gone. */
  ghost predicate TooSoon(s: State, e: Event, user: Id, task: Id) {
    && e.Pass?
    && var before, after := Times(s.sent, user, task), Times(Step(s, e).sent, user, task);
       |after| > |before|
       && exists c :: c in before && c !in Times(s.notices, user, task) && after[|before|] <= c + QUIET
  }

  ghost predicate NeverTooSoon(s: State, es: seq<Event>, user: Id, task: Id) {
    es == []
    || (NeverTooSoon(s, es[..|es| - 1], user, task) && !TooSoon(Run(s, es[..|es| - 1]), es[|es| - 1], user, task))
  }

  /** The reminders ever created of a pair stay spaced in a run of the job exactly when it does not
      remind too soon after a deleted one. */
  lemma PassSpacedIff(s: State, now: int, clock: nat -> int, user: Id, task: Id)
    requires forall k :: clock(k) >= now
    ensures var before, after := Times(s.sent, user, task), Times(Step(s, Pass(now, clock)).sent, user, task);
            Spaced(after) <==> Spaced(before) && !TooSoon(s, Pass(now, clock), user, task)
  {
    var present, before := Times(s.notices, user, task), Times(s.sent, user, task);
    PassRecords(s, now, clock, user, task);
    PassQuietly(s.notices, s.tasks, now, clock, user, task);
    var end := Step(s, Pass(now, clock));
    var added :| Times(end.notices, user, task) == present + added && Times(end.sent, user, task) == before + added;
    if added == [] {
      assert before + added == before;
    } else {
      assert (present + added)[|present|] == added[0];
      assert |added| == 1 && forall c :: c in present ==> c + QUIET < added[0];
      SpacedSnocIff(before, added[0]);
      assert added == [added[0]];
    }
  }

  lemma SpacedSnocIff(times: seq<int>, c: int)
    ensures Spaced(times + [c]) <==> Spaced(times) && forall d :: d in times ==> d + QUIET < c
  {
    var more := times + [c];
    if Spaced(more) {
      forall i, j | 0 <= i < j < |times|
        ensures times[i] + QUIET < times[j]
      {
        assert more[i] == times[i] && more[j] == times[j];
      }
      forall d | d in times
        ensures d + QUIET < c
      {
        var i :| 0 <= i < |times| && times[i] == d;
        assert more[i] == d && more[|times|] == c;
      }
    }
    if Spaced(times) && forall d :: d in times ==> d + QUIET < c {
      forall i, j | 0 <= i < j < |more|
        ensures more[i] + QUIET < more[j]
      {
        assert more[i] == times[i] && times[i] in times;
      }
    }
  }

  /** Throughout any run all the reminders ever created of a pair are more than eighteen hours apart
      exactly when the job never reminds within eighteen hours of a reminder that was deleted. */
  lemma {:induction false} SentSpacedIff(s: State, es: seq<Event>, user: Id, task: Id)
    requires Timely(es) && Spaced(Times(s.sent, user, task))
    ensures Spaced(Times(Run(s, es).sent, user, task)) <==> NeverTooSoon(s, es, user, task)
  {
    if es != [] {
      var init, last := es[..|es| - 1], es[|es| - 1];
      SentSpacedIff(s, init, user, task);
      assert last in es;
      if last.Pass? {
        PassSpacedIff(Run(s, init), last.now, last.clock, user, task);
      }
    }
  }

  // ---------------------------------------------------------------- at most two

  /** The task never has another due date than this one. */
  ghost predicate DueOnlyAt(tasks: seq<Task>, task: Id, due: int) {
    forall t :: t in tasks && t.id == task && t.due.Some? ==> t.due.value == due
  }

  ghost predicate FixedDue(s: State, es: seq<Event>, task: Id, due: int) {
    && DueOnlyAt(s.tasks, task, due)
    && forall e :: e in es && e.Change? ==> DueOnlyAt(e.tasks, task, due)
  }

  /** Reminders start a day before the deadline, and one that has a successor is more than the quiet
      period before the deadline. */
  ghost predicate DayBefore(times: seq<int>, due: int) {
    && (forall i :: 0 <= i < |times| ==> due - AHEAD <= times[i])
    && (forall i :: 0 <= i < |times| - 1 ==> times[i] + QUIET < due)
  }

  lemma {:induction false} RunKeepsDayBefore(s: State, es: seq<Event>, user: Id, task: Id, due: int)
    requires Timely(es) && FixedDue(s, es, task, due) && DayBefore(Times(s.notices, user, task), due)
    ensures DayBefore(Times(Run(s, es).notices, user, task), due)
    ensures DueOnlyAt(Run(s, es).tasks, task, due)
  {
    if es != [] {
      var init, last := es[..|es| - 1], es[|es| - 1];
      RunKeepsDayBefore(s, init, user, task, due);
      assert last in es;
      var mid := Run(s, init);
      var before, after := Times(mid.notices, user, task), Times(Run(s, es).notices, user, task);
      match last
      case Pass(now, clock) =>
        PassQuietly(mid.notices, mid.tasks, now, clock, user, task);
        if after != before {
          assert now < due <= now + AHEAD;
          DayBeforeStep(before, after, now, due);
        }
      case Change(_) =>
      case Dismiss(index) => TimesWithout(mid.notices, index, user, task);
    }
  }

  lemma DayBeforeStep(before: seq<int>, after: seq<int>, now: int, due: int)
    requires DayBefore(before, due) && Quietly(before, after, now) && now < due <= now + AHEAD
    ensures DayBefore(after, due)
  {
    if after != before {
      forall i | 0 <= i < |before|
        ensures after[i] == before[i] && after[i] + QUIET < now
      {
        assert after[..|before|][i] == before[i] && before[i] in before;
      }
    }
  }

  /** While a task keeps its due date a user has at most two reminders of it at any time, and is
      reminded at most twice plus once for every reminder deleted. */
  lemma AtMostTwo(s: State, es: seq<Event>, user: Id, task: Id, due: int)
    requires Timely(es) && FixedDue(s, es, task, due)
    requires Times(s.notices, user, task) == [] && Times(s.sent, user, task) == []
    ensures |Times(Run(s, es).notices, user, task)| <= 2
    ensures |Times(Run(s, es).sent, user, task)| <= 2 + Dismissed(s, es, user, task)
  {
    RunKeepsSpaced(s, es, user, task);
    RunKeepsDayBefore(s, es, user, task, due);
    RemindersConserved(s, es, user, task);
    NoThird(Times(Run(s, es).notices, user, task), due);
  }

  lemma NoThird(times: seq<int>, due: int)
    requires Spaced(times) && DayBefore(times, due)
    ensures |times| <= 2
  {
    if |times| >= 2 {
      assert times[0] + QUIET < times[1];
    }
  }

  function At(now: int): nat -> int {
    _ => now
  }

  lemma AppendEvent(s: State, es: seq<Event>, e: Event, user: Id, task: Id, due: int)
    requires Timely(es) && FixedDue(s, es, task, due) && !e.Change? && (e.Pass? ==> e.clock == At(e.now))
    ensures Timely(es + [e]) && FixedDue(s, es + [e], task, due)
    ensures Run(s, es + [e]) == Step(Run(s, es), e)
    ensures Dismissed(s, es + [e], user, task) == Dismissed(s, es, user, task) + DismissalOf(Run(s, es), e, user, task)
  {
    assert (es + [e])[..|es|] == es;
  }

  /** A run of the job over one task and one assignee not reminded lately. */
  lemma RemindsOnce(s: State, t: Task, user: Id, now: int)
    requires s.tasks == [t] && t.assignees == [user] && DueSoon(t, now) && !Recent(s.notices, user, t.id, now)
    ensures var n := Notice(user, t.id, now);
            && Step(s, Pass(now, At(now))) == State(s.tasks, s.notices + [n], s.sent + [n])
            && Times(s.notices + [n], user, t.id) == Times(s.notices, user, t.id) + [now]
            && Times(s.sent + [n], user, t.id) == Times(s.sent, user, t.id) + [now]
  {
    var n := Notice(user, t.id, now);
    SinglePass(s.notices, t, user, now, At(now));
    assert (s.notices + [n])[|s.notices|..] == [n];
    TimesAround(s.notices, n, [], user, t.id);
    TimesAround(s.sent, n, [], user, t.id);
    assert s.notices + [n] + [] == s.notices + [n] && s.sent + [n] + [] == s.sent + [n];
  }

  lemma RemindAndDismiss(s: State, t: Task, user: Id, now: int)
    requires s.tasks == [t] && t.assignees == [user] && DueSoon(t, now) && s.notices == []
    ensures var mid := Step(s, Pass(now, At(now)));
            var end := Step(mid, Dismiss(0));
            && end.tasks == s.tasks && end.notices == []
            && |Times(end.sent, user, t.id)| == |Times(s.sent, user, t.id)| + 1
            && DismissalOf(mid, Dismiss(0), user, t.id) == 1
  {
    RemindsOnce(s, t, user, now);
    var mid := Step(s, Pass(now, At(now)));
    assert mid.notices == [Notice(user, t.id, now)];
    assert Without(mid.notices, 0) == [];
  }

  /** One run a day before the deadline, one reminder deleted, over and over. */
  lemma {:induction false} DismissedOverAndOver(user: Id, task: Id, due: int, n: nat) returns (es: seq<Event>)
    ensures Timely(es) && FixedDue(Unreminded(user, task, due), es, task, due)
    ensures Dismissed(Unreminded(user, task, due), es, user, task) == n
    ensures var end := Run(Unreminded(user, task, due), es);
            end.tasks == Unreminded(user, task, due).tasks && end.notices == [] && |Times(end.sent, user, task)| == n
  {
    if n == 0 {
      es := [];
    } else {
      var before := DismissedOverAndOver(user, task, due, n - 1);
      var s, now := Unreminded(user, task, due), due - AHEAD;
      var mid, pass := Run(s, before), Pass(now, At(now));
      RemindAndDismiss(mid, s.tasks[0], user, now);
      AppendEvent(s, before, pass, user, task, due);
      AppendEvent(s, before + [pass], Dismiss(0), user, task, due);
      es := before + [pass] + [Dismiss(0)];
    }
  }

  /** Both bounds are reached, for any number of deletions: a run a full day before the deadline and
      one in its last six hours remind twice more. */
  lemma TwoReached(user: Id, task: Id, due: int, later: int, n: nat) returns (es: seq<Event>)
    requires due - AHEAD + QUIET < later < due
    ensures Timely(es) && FixedDue(Unreminded(user, task, due), es, task, due)
    ensures Dismissed(Unreminded(user, task, due), es, user, task) == n
    ensures Times(Run(Unreminded(user, task, due), es).notices, user, task) == [due - AHEAD, later]
    ensures |Times(Run(Unreminded(user, task, due), es).sent, user, task)| == 2 + n
  {
    var s, first, second := Unreminded(user, task, due), Pass(due - AHEAD, At(due - AHEAD)), Pass(later, At(later));
    var before := DismissedOverAndOver(user, task, due, n);
    LastTwo(Run(s, before), s.tasks[0], user, first.now, later);
    AppendEvent(s, before, first, user, task, due);
    AppendEvent(s, before + [first], second, user, task, due);
    es := before + [first] + [second];
  }

  lemma LastTwo(s: State, t: Task, user: Id, first: int, later: int)
    requires s.tasks == [t] && t.assignees == [user] && s.notices == []
    requires DueSoon(t, first) && DueSoon(t, later) && first + QUIET < later
    ensures var end := Step(Step(s, Pass(first, At(first))), Pass(later, At(later)));
            && Times(end.notices, user, t.id) == [first, later]
            && |Times(end.sent, user, t.id)| == |Times(s.sent, user, t.id)| + 2
  {
    RemindsOnce(s, t, user, first);
    var mid := Step(s, Pass(first, At(first)));
    assert mid.notices == [Notice(user, t.id, first)];
    RemindsOnce(mid, t, user, later);
    assert Times([], user, t.id) == [];
  }

  /** One assigned task and nobody reminded yet. */
  function Unreminded(user: Id, task: Id, due: int): State {
    State([Task(task, Some(due), false, false, [user])], [], [])
  }

  lemma SinglePass(notices: seq<Notice>, t: Task, user: Id, now: int, clock: nat -> int)
    requires DueSoon(t, now) && t.assignees == [user]
    ensures PassOver(notices, [t], now, clock) == Remind(notices, t.id, user, now, clock)
  {
    assert [t][..0] == [] && [user][..0] == [];
    assert RemindAll(notices, t.id, [], now, clock) == notices;
    assert PassOver(notices, [], now, clock) == notices;
  }

  // ---------------------------------------------------------------- nobody is forgotten

  lemma {:induction false} RemindAllKeeps(notices: seq<Notice>, t: Id, us: seq<Id>, now: int, clock: nat -> int)
    ensures (forall k :: clock(k) >= now) ==>
              forall u :: u in us ==> Recent(RemindAll(notices, t, us, now, clock), u, t, now)
  {
    if us != [] {
      var last := |us| - 1;
      RemindAllKeeps(notices, t, us[..last], now, clock);
      var mid, after := RemindAll(notices, t, us[..last], now, clock), RemindAll(notices, t, us, now, clock);
      assert forall n :: n in mid ==> n in after;
      assert us == us[..last] + [us[last]];
      assert !Recent(mid, us[last], t, now) ==> Notice(us[last], t, clock(|mid|)) in after;
    }
  }

  /** After a run every assignee of every task due within a day has a reminder less than eighteen
      hours old. */
  lemma {:induction false} NobodyForgotten(notices: seq<Notice>, tasks: seq<Task>, now: int, clock: nat -> int)
    requires forall k :: clock(k) >= now
    ensures forall t, u :: t in tasks && DueSoon(t, now) && u in t.assignees ==>
              Recent(PassOver(notices, tasks, now, clock), u, t.id, now)
  {
    if tasks != [] {
      var init, last := tasks[..|tasks| - 1], tasks[|tasks| - 1];
      NobodyForgotten(notices, init, now, clock);
      var mid, after := PassOver(notices, init, now, clock), PassOver(notices, tasks, now, clock);
      RemindAllKeeps(mid, last.id, last.assignees, now, clock);
      assert forall n :: n in mid ==> n in after;
      assert tasks == init + [last];
    }
  }

  /** A run reminds a user of a task exactly when the task is live, unfinished, due within the next
      twenty-four hours and assigned to the user, and the user has no reminder of it from the last
      eighteen hours; then it does so once, with a stamp no earlier than the run. */
  lemma RemindedIff(notices: seq<Notice>, tasks: seq<Task>, now: int, clock: nat -> int, user: Id, task: Id)
    requires forall k :: clock(k) >= now
    ensures var before := Times(notices, user, task);
            var after := Times(PassOver(notices, tasks, now, clock), user, task);
            if && (exists t :: t in tasks && t.id == task && user in t.assignees && !t.done && !t.archived
                               && t.due.Some? && now < t.due.value <= now + 86400)
               && (forall n :: n in notices && n.user == user && n.task == task ==> n.createdAt < now - 64800)
            then |after| == |before| + 1 && after[..|before|] == before && after[|before|] >= now
            else after == before
  {
    var before, after := Times(notices, user, task), Times(PassOver(notices, tasks, now, clock), user, task);
    PassQuietly(notices, tasks, now, clock, user, task);
    TimesMembers(notices, user, task);
    TimesMembers(PassOver(notices, tasks, now, clock), user, task);
    if n :| n in notices && n.user == user && n.task == task && n.createdAt >= now - 64800 {
      assert n == Notice(user, task, n.createdAt) && n.createdAt in before;
    } else if t :| t in tasks && t.id == task && user in t.assignees && DueSoon(t, now) {
      NobodyForgotten(notices, tasks, now, clock);
      assert Recent(PassOver(notices, tasks, now, clock), user, task, now);
      var n :| n in PassOver(notices, tasks, now, clock) && n.user == user && n.task == task
               && n.createdAt >= now - QUIET;
      assert n == Notice(user, task, n.createdAt) && n.createdAt in after;
      assert n.createdAt in before ==> n in notices;
    }
  }
}
