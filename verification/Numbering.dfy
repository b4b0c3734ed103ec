/** Task numbers from a counter per project, and the identifiers KEY-n made from them. */
module Numbering {
  import opened Common

  datatype Project = Project(workspace: Id, key: string, counter: nat)

  datatype Task = Task(project: Id, workspace: Id, number: nat, identifier: string)

  datatype State = State(projects: map<Id, Project>, tasks: seq<Task>)

  datatype Reply = Done | NotFound | BadKey | KeyTaken

  // ---------------------------------------------------------------- rendering

  function Digit(d: nat): (c: char)
    requires d < 10
    ensures '0' <= c <= '9'
  {
    '0' + d as char
  }

  function Decimal(n: nat): (s: string)
    ensures |s| > 0 && forall c :: c in s ==> '0' <= c <= '9'
  {
    if n < 10 then [Digit(n)] else Decimal(n / 10) + [Digit(n % 10)]
  }

  function Value(s: string): int {
    if s == "" then 0 else 10 * Value(s[..|s| - 1]) + (s[|s| - 1] as int - '0' as int)
  }

  function Identifier(key: string, n: nat): string {
    key + "-" + Decimal(n)
  }

  predicate Letter(c: char) {
    'A' <= c <= 'Z' || 'a' <= c <= 'z'
  }

  function Upper(s: string): (r: string)
    ensures |r| == |s|
  {
    if s == "" then "" else [if 'a' <= s[0] <= 'z' then s[0] - 'a' + 'A' else s[0]] + Upper(s[1..])
  }

  /** The schema's pattern for keys: a letter, then letters and digits, 2 to 12 characters. */
  predicate ValidKey(key: string) {
    2 <= |key| <= 12 && Letter(key[0]) && forall c :: c in key ==> Letter(c) || '0' <= c <= '9'
  }

  lemma {:induction false} DecimalRoundTrip(n: nat)
    ensures Value(Decimal(n)) == n
  {
    if n >= 10 {
      DecimalRoundTrip(n / 10);
      assert Decimal(n)[..|Decimal(n)| - 1] == Decimal(n / 10);
    }
  }

  lemma {:induction false} UpperHasNoDash(key: string)
    requires forall c :: c in key ==> Letter(c) || '0' <= c <= '9'
    ensures '-' !in Upper(key)
  {
    if key != "" {
      assert key[0] in key && forall c :: c in key[1..] ==> c in key;
      UpperHasNoDash(key[1..]);
    }
  }

  function FirstDash(s: string): nat {
    if s == "" || s[0] == '-' then 0 else 1 + FirstDash(s[1..])
  }

  lemma {:induction false} FirstDashAfterKey(key: string, rest: string)
    requires '-' !in key
    ensures FirstDash(key + "-" + rest) == |key|
  {
    if key != "" {
      assert (key + "-" + rest)[1..] == key[1..] + "-" + rest;
      FirstDashAfterKey(key[1..], rest);
    }
  }

  /** KEY-n determines both the key and the number when keys contain no dash. */
  lemma IdentifierInjective(k1: string, n1: nat, k2: string, n2: nat)
    requires '-' !in k1 && '-' !in k2 && Identifier(k1, n1) == Identifier(k2, n2)
    ensures k1 == k2 && n1 == n2
  {
    var s := Identifier(k1, n1);
    FirstDashAfterKey(k1, Decimal(n1));
    FirstDashAfterKey(k2, Decimal(n2));
    assert k1 == s[..FirstDash(s)] && k2 == s[..FirstDash(s)];
    assert Decimal(n1) == s[FirstDash(s) + 1..] && Decimal(n2) == s[FirstDash(s) + 1..];
    DecimalRoundTrip(n1);
    DecimalRoundTrip(n2);
  }

  // ---------------------------------------------------------------- requests

  /** AddTask stands for the four requests that create one task under the project's row lock: the
      task form, duplication, subtask conversion and task templates. */
  datatype Command =
    | CreateProject(id: Id, workspace: Id, key: string)
    | AddTask(project: Id)
    | ApplyProjectTemplate(id: Id, workspace: Id, key: string, tasks: nat)

  predicate KeyInUse(s: State, workspace: Id, key: string) {
    exists p :: p in s.projects && s.projects[p].workspace == workspace && s.projects[p].key == key
  }

  function Numbered(s: State, p: Id): State
    requires p in s.projects
  {
    var project := s.projects[p];
    var n := project.counter + 1;
    State(s.projects[p := project.(counter := n)],
          s.tasks + [Task(p, project.workspace, n, Identifier(project.key, n))])
  }

  function NumberedTimes(s: State, p: Id, k: nat): State
    requires p in s.projects
  {
    if k == 0 then s
    else
      var before := NumberedTimes(s, p, k - 1);
      if p in before.projects then Numbered(before, p) else before
  }

  function WithProject(s: State, id: Id, workspace: Id, key: string): (State, Reply) {
    if !ValidKey(key) then (s, BadKey)
    else if id in s.projects || KeyInUse(s, workspace, Upper(key)) then (s, KeyTaken)
    else (s.(projects := s.projects[id := Project(workspace, Upper(key), 0)]), Done)
  }

  function Step(s: State, c: Command): (State, Reply) {
    match c
    case CreateProject(id, workspace, key) => WithProject(s, id, workspace, key)
    case AddTask(p) => if p in s.projects then (Numbered(s, p), Done) else (s, NotFound)
    case ApplyProjectTemplate(id, workspace, key, k) =>
      var (created, reply) := WithProject(s, id, workspace, key);
      if reply != Done then (s, reply) else (NumberedTimes(created, id, k), Done)
  }

  function Run(s: State, cs: seq<Command>): State
    decreases |cs|
  {
    if cs == [] then s else Run(Step(s, cs[0]).0, cs[1..])
  }

  class Tracker {
    var projects: map<Id, Project>
    var tasks: seq<Task>

    ghost function Value(): State
      reads this
    {
      State(projects, tasks)
    }

    constructor ()
      ensures Value() == State(map[], [])
    {
      projects, tasks := map[], [];
    }

    method NumberTask(p: Id) returns (t: Task)
      requires p in projects
      modifies this
      ensures Value() == Numbered(old(Value()), p) && tasks == old(tasks) + [t]
    {
      projects := projects[p := projects[p].(counter := projects[p].counter + 1)];
      var n := projects[p].counter;
      t := Task(p, projects[p].workspace, n, Identifier(projects[p].key, n));
      tasks := tasks + [t];
    }

    method Add(p: Id) returns (reply: Reply)
      modifies this
      ensures (Value(), reply) == Step(old(Value()), Command.AddTask(p))
    {
      if p !in projects {
        return NotFound;
      }
      var _ := NumberTask(p);
      return Done;
    }

    method Create(id: Id, workspace: Id, key: string) returns (reply: Reply)
      modifies this
      ensures (Value(), reply) == Step(old(Value()), Command.CreateProject(id, workspace, key))
    {
      if !ValidKey(key) {
        return BadKey;
      }
      if id in projects || exists p ::
          p in projects && projects[p].workspace == workspace && projects[p].key == Upper(key) {
        return KeyTaken;
      }
      projects := projects[id := Project(workspace, Upper(key), 0)];
      return Done;
    }

    method ApplyTemplate(id: Id, workspace: Id, key: string, count: nat) returns (reply: Reply)
      modifies this
      ensures (Value(), reply) == Step(old(Value()), Command.ApplyProjectTemplate(id, workspace, key, count))
    {
      reply := Create(id, workspace, key);
      if reply != Done {
        return;
      }
      ghost var created := Value();
      for k := 0 to count
        invariant id in projects && Value() == NumberedTimes(created, id, k)
      {
        var _ := NumberTask(id);
      }
    }
  }

  // ---------------------------------------------------------------- what the requests do

  /** An identifier is the key, a dash and the decimal digits of the number. */
  lemma IdentifierReads(key: string, n: nat)
    ensures var s := Identifier(key, n);
            && |s| > |key| + 1 && s[..|key|] == key && s[|key|] == '-' && Value(s[|key| + 1..]) == n
            && forall i :: |key| < i < |s| ==> '0' <= s[i] <= '9'
    ensures Identifier("OPS", 120) == "OPS-120"
  {
    DecimalRoundTrip(n);
    var s := Identifier(key, n);
    assert s[|key| + 1..] == Decimal(n);
    forall i | |key| < i < |s|
      ensures '0' <= s[i] <= '9'
    {
      assert s[i] == Decimal(n)[i - |key| - 1] && Decimal(n)[i - |key| - 1] in Decimal(n);
    }
    assert Decimal(120) == Decimal(12) + ['0'] && Decimal(12) == Decimal(1) + ['2'];
    assert Identifier("OPS", 120) == "OPS" + "-" + "120";
  }

  /** Upper-casing changes exactly the small letters, each to its capital. */
  lemma {:induction false} UpperAt(s: string, i: nat)
    requires i < |s|
    ensures Upper(s)[i] as int == s[i] as int - (if 'a' <= s[i] <= 'z' then 32 else 0)
  {
    if i > 0 {
      UpperAt(s[1..], i - 1);
    }
  }

  /** A task is added to every project that exists: one, with the next number, and nothing else
      changes but the project's counter. */
  lemma AddTaskExact(s: State, p: Id)
    ensures var (after, reply) := Step(s, AddTask(p));
            if p in s.projects
            then && reply == Done
                 && var next := s.projects[p].counter + 1;
                    after.tasks
                    == s.tasks + [Task(p, s.projects[p].workspace, next, Identifier(s.projects[p].key, next))]
                    && after.projects == s.projects[p := s.projects[p].(counter := next)]
            else reply == NotFound && after == s
  {
  }

  /** A project is created exactly when its key matches the pattern, its id is new, and no project of
      the workspace has that key in capitals. */
  lemma CreatedIff(s: State, id: Id, workspace: Id, key: string)
    ensures var (after, reply) := Step(s, CreateProject(id, workspace, key));
            && (reply == Done
                <==> && 2 <= |key| <= 12 && Letter(key[0])
                     && (forall i :: 0 <= i < |key| ==> Letter(key[i]) || '0' <= key[i] <= '9')
                     && id !in s.projects
                     && forall p :: p in s.projects && s.projects[p].workspace == workspace ==>
                          s.projects[p].key != Upper(key))
            && after.tasks == s.tasks
            && after.projects
               == if reply == Done then s.projects[id := Project(workspace, Upper(key), 0)] else s.projects
  {
    assert forall i :: 0 <= i < |key| ==> key[i] in key;
  }

  lemma {:induction false} NumberedTimesExact(s: State, p: Id, k: nat)
    requires p in s.projects
    ensures var after := NumberedTimes(s, p, k);
            && p in after.projects
            && after.projects == s.projects[p := s.projects[p].(counter := s.projects[p].counter + k)]
            && |after.tasks| == |s.tasks| + k && s.tasks <= after.tasks
            && forall j :: |s.tasks| <= j < |after.tasks| ==>
                 var n := s.projects[p].counter + 1 + j - |s.tasks|;
                 after.tasks[j] == Task(p, s.projects[p].workspace, n, Identifier(s.projects[p].key, n))
  {
    if k > 0 {
      NumberedTimesExact(s, p, k - 1);
    } else {
      assert s.projects[p := s.projects[p]] == s.projects;
    }
  }

  /** A project template is applied exactly when the project can be created; then its k tasks are
      there, numbered 1 to k in the template's order. */
  lemma TemplateExact(s: State, id: Id, workspace: Id, key: string, k: nat)
    ensures var (after, reply) := Step(s, ApplyProjectTemplate(id, workspace, key, k));
            if Step(s, CreateProject(id, workspace, key)).1 == Done
            then && reply == Done && after.projects == s.projects[id := Project(workspace, Upper(key), k)]
                 && |after.tasks| == |s.tasks| + k && s.tasks <= after.tasks
                 && forall j :: |s.tasks| <= j < |after.tasks| ==>
                      var n := 1 + j - |s.tasks|;
                      after.tasks[j] == Task(id, workspace, n, Identifier(Upper(key), n))
            else reply != Done && after == s
  {
    var (created, reply) := WithProject(s, id, workspace, key);
    if reply == Done {
      NumberedTimesExact(created, id, k);
    }
  }

  // ---------------------------------------------------------------- every run

  ghost predicate Consistent(s: State, t: Task) {
    && t.project in s.projects
    && t.workspace == s.projects[t.project].workspace
    && 1 <= t.number <= s.projects[t.project].counter
    && t.identifier == Identifier(s.projects[t.project].key, t.number)
  }

  ghost predicate Used(s: State, p: Id, n: nat) {
    exists i :: 0 <= i < |s.tasks| && s.tasks[i].project == p && s.tasks[i].number == n
  }

  /** Keys are dash-free and unique in a workspace; the numbers of a project's tasks are exactly
      1 .. counter, each used once; identifiers are rendered from them. */
  ghost predicate Valid(s: State) {
    && (forall p :: p in s.projects ==> '-' !in s.projects[p].key)
    && (forall p, q :: p in s.projects && q in s.projects && p != q ==>
          s.projects[p].workspace != s.projects[q].workspace || s.projects[p].key != s.projects[q].key)
    && (forall i :: 0 <= i < |s.tasks| ==> Consistent(s, s.tasks[i]))
    && (forall i, j :: 0 <= i < j < |s.tasks| && s.tasks[i].project == s.tasks[j].project
          ==> s.tasks[i].number != s.tasks[j].number)
    && (forall p, n :: p in s.projects && 1 <= n <= s.projects[p].counter ==> Used(s, p, n))
  }

  lemma NumberedKeepsValid(s: State, p: Id)
    requires Valid(s) && p in s.projects
    ensures Valid(Numbered(s, p))
  {
    var after := Numbered(s, p);
    forall q, n | q in after.projects && 1 <= n <= after.projects[q].counter
      ensures Used(after, q, n)
    {
      NumberUsed(s, p, q, n);
    }
    OldTasksStay(s, p);
  }

  lemma NumberUsed(s: State, p: Id, q: Id, n: nat)
    requires Valid(s) && p in s.projects && q in s.projects && 1 <= n <= Numbered(s, p).projects[q].counter
    ensures Used(Numbered(s, p), q, n)
  {
    var after := Numbered(s, p);
    if q == p && n == after.projects[p].counter {
      var last := after.tasks[|s.tasks|];
      assert last.project == q && last.number == n;
    } else {
      assert Used(s, q, n);
      var i :| 0 <= i < |s.tasks| && s.tasks[i].project == q && s.tasks[i].number == n;
      assert after.tasks[i] == s.tasks[i];
    }
  }

  lemma OldTasksStay(s: State, p: Id)
    requires Valid(s) && p in s.projects
    ensures var after := Numbered(s, p);
            forall i :: 0 <= i < |s.tasks| ==>
              && after.tasks[i] == s.tasks[i] && Consistent(after, after.tasks[i])
              && (s.tasks[i].project == p ==> s.tasks[i].number < after.projects[p].counter)
  {
    forall i | 0 <= i < |s.tasks|
      ensures Consistent(Numbered(s, p), s.tasks[i])
    {
      assert Consistent(s, s.tasks[i]);
    }
  }

  lemma {:induction false} NumberedTimesKeepsValid(s: State, p: Id, k: nat)
    requires Valid(s) && p in s.projects
    ensures Valid(NumberedTimes(s, p, k)) && p in NumberedTimes(s, p, k).projects
  {
    if k > 0 {
      NumberedTimesKeepsValid(s, p, k - 1);
      NumberedKeepsValid(NumberedTimes(s, p, k - 1), p);
    }
  }

  lemma WithProjectKeepsValid(s: State, id: Id, workspace: Id, key: string)
    requires Valid(s)
    ensures Valid(WithProject(s, id, workspace, key).0)
  {
    var (after, reply) := WithProject(s, id, workspace, key);
    if reply == Done {
      UpperHasNoDash(key);
      forall i | 0 <= i < |s.tasks|
        ensures Consistent(after, after.tasks[i])
      {
        assert Consistent(s, s.tasks[i]);
      }
      forall p, n | p in after.projects && 1 <= n <= after.projects[p].counter
        ensures Used(after, p, n)
      {
        assert Used(s, p, n);
      }
    }
  }

  lemma StepKeepsValid(s: State, c: Command)
    requires Valid(s)
    ensures Valid(Step(s, c).0)
  {
    match c
    case CreateProject(id, workspace, key) => WithProjectKeepsValid(s, id, workspace, key);
    case AddTask(p) => if p in s.projects { NumberedKeepsValid(s, p); }
    case ApplyProjectTemplate(id, workspace, key, k) =>
      var (created, reply) := WithProject(s, id, workspace, key);
      WithProjectKeepsValid(s, id, workspace, key);
      if reply == Done {
        NumberedTimesKeepsValid(created, id, k);
      }
  }

  /** Two tasks of one workspace never share an identifier. */
  ghost predicate IdentifiersUnique(s: State) {
    forall i, j :: 0 <= i < j < |s.tasks| && s.tasks[i].workspace == s.tasks[j].workspace
      ==> s.tasks[i].identifier != s.tasks[j].identifier
  }

  lemma SameIdentifierSameNumber(s: State, t: Task, u: Task)
    requires Valid(s) && Consistent(s, t) && Consistent(s, u)
    requires t.workspace == u.workspace && t.identifier == u.identifier
    ensures t.project == u.project && t.number == u.number
  {
    IdentifierInjective(s.projects[t.project].key, t.number, s.projects[u.project].key, u.number);
  }

  lemma ValidIdentifiersUnique(s: State)
    requires Valid(s)
    ensures IdentifiersUnique(s)
  {
    forall i, j | 0 <= i < j < |s.tasks| && s.tasks[i].workspace == s.tasks[j].workspace
      ensures s.tasks[i].identifier != s.tasks[j].identifier
    {
      if s.tasks[i].identifier == s.tasks[j].identifier {
        SameIdentifierSameNumber(s, s.tasks[i], s.tasks[j]);
      }
    }
  }

  /** In every run, through every creator: numbers are exactly 1 .. counter per project and
      identifiers are unique per workspace. */
  lemma {:induction false} RunNumbersUnique(s: State, cs: seq<Command>)
    requires Valid(s)
    ensures Valid(Run(s, cs)) && IdentifiersUnique(Run(s, cs))
    decreases |cs|
  {
    if cs == [] {
      ValidIdentifiersUnique(s);
    } else {
      StepKeepsValid(s, cs[0]);
      RunNumbersUnique(Step(s, cs[0]).0, cs[1..]);
    }
  }
}
