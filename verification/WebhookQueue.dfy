/** Turning activity log entries into webhook deliveries: one row per hook and activity, oldest
    activities first, a bounded number per hook and pass. */
module WebhookQueue {
  import opened Common
  import opened EventPatterns

  datatype Hook = Hook(workspace: Id, createdAt: int, active: bool, events: string)

  datatype Activity = Activity(workspace: Id, createdAt: int, action: string)

  /** A delivery row; activities the hook did not subscribe to get a row as well, marked skipped. */
  datatype Delivery = Delivery(hook: nat, activity: nat, matched: bool)

  datatype State = State(hooks: seq<Hook>, log: seq<Activity>, rows: seq<Delivery>)

  predicate Queued(rows: seq<Delivery>, h: nat, a: nat) {
    exists i :: 0 <= i < |rows| && rows[i].hook == h && rows[i].activity == a
  }

  /** The activities that the hook covers and has no row for. */
  function Backlog(s: State, h: nat): set<nat>
    requires h < |s.hooks|
  {
    set a | 0 <= a < |s.log| && s.log[a].workspace == s.hooks[h].workspace
            && s.log[a].createdAt >= s.hooks[h].createdAt && !Queued(s.rows, h, a)
  }

  ghost predicate NoDuplicates(rows: seq<Delivery>) {
    forall i, j :: 0 <= i < j < |rows| && rows[i].hook == rows[j].hook ==> rows[i].activity != rows[j].activity
  }

  function Subtract(n: nat, m: nat): nat {
    if n <= m then 0 else n - m
  }

  /** Each new row is for a backlog item of one of the first n hooks, an active one. */
  ghost predicate RowsFromBacklog(cc: CharClass, s: State, s': State, n: nat) {
    forall i :: |s.rows| <= i < |s'.rows| ==>
      var d := s'.rows[i];
      && d.hook < n && d.hook < |s.hooks| && s.hooks[d.hook].active && d.activity in Backlog(s, d.hook)
      && d.matched == EventMatches(cc, s.hooks[d.hook].events, s.log[d.activity].action)
  }

  /** The backlog of each of the first n hooks, if active, shrinks by the limit as far as it can;
      the others stay as they are. */
  ghost predicate BacklogsShrink(s: State, limit: nat, s': State, n: nat)
    requires |s'.hooks| == |s.hooks|
  {
    forall h :: 0 <= h < |s.hooks| ==>
      if h < n && s.hooks[h].active then |Backlog(s', h)| == Subtract(|Backlog(s, h)|, limit)
      else Backlog(s', h) == Backlog(s, h)
  }

  /** Nothing left behind is older than anything taken for the same hook. */
  ghost predicate OldestTaken(s: State, s': State)
    requires s'.log == s.log
  {
    forall i, a :: |s.rows| <= i < |s'.rows| && s'.rows[i].hook < |s'.hooks| && s'.rows[i].activity < |s.log|
                   && a in Backlog(s', s'.rows[i].hook) ==>
      s.log[s'.rows[i].activity].createdAt <= s.log[a].createdAt
  }

  /** What a pass has done after its first n hooks. */
  ghost predicate PassUpTo(cc: CharClass, s: State, limit: nat, s': State, n: nat) {
    && s'.hooks == s.hooks && s'.log == s.log && s.rows <= s'.rows
    && (NoDuplicates(s.rows) ==> NoDuplicates(s'.rows))
    && RowsFromBacklog(cc, s, s', n) && BacklogsShrink(s, limit, s', n) && OldestTaken(s, s')
  }

  ghost predicate PassStep(cc: CharClass, s: State, limit: nat, s': State) {
    PassUpTo(cc, s, limit, s', |s.hooks|)
  }

  function MatchedCount(rows: seq<Delivery>): nat {
    if rows == [] then 0 else MatchedCount(rows[..|rows| - 1]) + (if rows[|rows| - 1].matched then 1 else 0)
  }

  class Queue {
    var hooks: seq<Hook>
    var log: seq<Activity>
    var rows: seq<Delivery>

    ghost function Value(): State
      reads this
    {
      State(hooks, log, rows)
    }

    constructor ()
      ensures Value() == State([], [], [])
    {
      hooks, log, rows := [], [], [];
    }

    /** `ORDER BY created_at LIMIT n` over a hook's backlog. */
    method OldestFirst(h: nat, limit: nat) returns (batch: seq<nat>)
      requires h < |hooks|
      ensures IsBatch(log, Backlog(Value(), h), limit, batch)
    {
      batch := [];
      var rest := set a | 0 <= a < |log| && log[a].workspace == hooks[h].workspace
                          && log[a].createdAt >= hooks[h].createdAt && !Queued(rows, h, a);
      ghost var all := rest;
      while |batch| < limit && rest != {}
        invariant |batch| <= limit && rest <= all
        invariant |batch| + |rest| == |all|
        invariant forall x :: x in batch <==> x in all - rest
        invariant forall i :: 0 <= i < |batch| ==> batch[i] in all
        invariant forall i, j :: 0 <= i < j < |batch| ==> batch[i] != batch[j]
        invariant forall x, y :: x in batch && y in rest ==> log[x].createdAt <= log[y].createdAt
      {
        Oldest(log, rest);
        var a :| a in rest && forall b :: b in rest ==> log[a].createdAt <= log[b].createdAt;
        batch := batch + [a];
        rest := rest - {a};
      }
    }

    method QueueFor(cc: CharClass, h: nat, limit: nat) returns (created: nat, ghost batch: seq<nat>)
      requires h < |hooks|
      modifies this`rows
      ensures IsBatch(log, Backlog(old(Value()), h), limit, batch)
      ensures rows == old(rows) + NewRows(cc, old(Value()), h, batch)
      ensures created == MatchedCount(NewRows(cc, old(Value()), h, batch))
    {
      var chosen := OldestFirst(h, limit);
      batch := chosen;
      created := 0;
      ghost var added := NewRows(cc, Value(), h, chosen);
      assert added[..0] == [];
      for i := 0 to |chosen|
        invariant rows == old(rows) + added[..i]
        invariant created == MatchedCount(added[..i])
      {
        var matched := Matches(cc, hooks[h].events, log[chosen[i]].action);
        assert added[i] == Delivery(h, chosen[i], matched);
        CountNext(added, i);
        rows := rows + [Delivery(h, chosen[i], matched)];
        if matched {
          created := created + 1;
        }
      }
      assert added[..|chosen|] == added;
    }

    method QueueDeliveries(cc: CharClass, limit: nat) returns (created: nat)
      modifies this`rows
      ensures PassStep(cc, old(Value()), limit, Value())
      ensures created == MatchedCount(rows) - MatchedCount(old(rows))
    {
      created := 0;
      ghost var s := Value();
      PassStarts(cc, s, limit);
      for h := 0 to |hooks|
        invariant hooks == s.hooks && log == s.log
        invariant PassUpTo(cc, s, limit, Value(), h)
        invariant created == MatchedCount(rows) - MatchedCount(s.rows)
      {
        ghost var m := Value();
        if hooks[h].active {
          var n, batch := QueueFor(cc, h, limit);
          created := created + n;
          CountConcat(m.rows, NewRows(cc, m, h, batch));
          HookExtends(cc, s, limit, m, h, batch);
        } else {
          HookSkips(cc, s, limit, m, h);
        }
      }
    }
  }

  /** The oldest `limit` members of a backlog, or all of it when there are fewer. */
  ghost predicate IsBatch(log: seq<Activity>, backlog: set<nat>, limit: nat, batch: seq<nat>) {
    && (forall a :: a in backlog ==> a < |log|)
    && (forall i :: 0 <= i < |batch| ==> batch[i] in backlog)
    && (forall i, j :: 0 <= i < j < |batch| ==> batch[i] != batch[j])
    && |batch| == (if |backlog| <= limit then |backlog| else limit)
    && (forall x, y :: x in batch && y in backlog && y !in batch ==> log[x].createdAt <= log[y].createdAt)
  }

  ghost function NewRows(cc: CharClass, s: State, h: nat, batch: seq<nat>): (added: seq<Delivery>)
    requires h < |s.hooks| && forall i :: 0 <= i < |batch| ==> batch[i] < |s.log|
    ensures |added| == |batch|
    ensures forall i :: 0 <= i < |batch| ==>
      added[i] == Delivery(h, batch[i], EventMatches(cc, s.hooks[h].events, s.log[batch[i]].action))
  {
    seq(|batch|, i requires 0 <= i < |batch| =>
      Delivery(h, batch[i], EventMatches(cc, s.hooks[h].events, s.log[batch[i]].action)))
  }

  lemma {:induction false} Oldest(log: seq<Activity>, s: set<nat>)
    requires s != {} && forall a :: a in s ==> a < |log|
    ensures exists a :: a in s && forall b :: b in s ==> log[a].createdAt <= log[b].createdAt
    decreases s
  {
    var x :| x in s;
    if s != {x} {
      Oldest(log, s - {x});
      var a :| a in s - {x} && forall b :: b in s - {x} ==> log[a].createdAt <= log[b].createdAt;
      var first := if log[x].createdAt < log[a].createdAt then x else a;
      assert first in s && forall b :: b in s ==> log[first].createdAt <= log[b].createdAt;
    }
  }

  lemma BacklogAfter(cc: CharClass, m: State, limit: nat, h: nat, batch: seq<nat>, g: nat)
    requires h < |m.hooks| && g < |m.hooks| && IsBatch(m.log, Backlog(m, h), limit, batch)
    ensures var m' := m.(rows := m.rows + NewRows(cc, m, h, batch));
            Backlog(m', g) == if g == h then Backlog(m, h) - (set a | a in batch) else Backlog(m, g)
  {
    var m' := m.(rows := m.rows + NewRows(cc, m, h, batch));
    forall a
      ensures Queued(m'.rows, g, a) <==> Queued(m.rows, g, a) || (g == h && a in batch)
    {
      if Queued(m.rows, g, a) {
        var i :| 0 <= i < |m.rows| && m.rows[i].hook == g && m.rows[i].activity == a;
        assert m'.rows[i] == m.rows[i];
      } else if g == h && a in batch {
        var i :| 0 <= i < |batch| && batch[i] == a;
        assert m'.rows[|m.rows| + i].activity == a && m'.rows[|m.rows| + i].hook == h;
      }
    }
  }

  lemma CountNext(rows: seq<Delivery>, i: nat)
    requires i < |rows|
    ensures rows[..i + 1] == rows[..i] + [rows[i]]
    ensures MatchedCount(rows[..i + 1]) == MatchedCount(rows[..i]) + (if rows[i].matched then 1 else 0)
  {
    assert rows[..i + 1][..i] == rows[..i];
  }

  lemma {:induction false} CountConcat(a: seq<Delivery>, b: seq<Delivery>)
    ensures MatchedCount(a + b) == MatchedCount(a) + MatchedCount(b)
  {
    if b == [] {
      assert a + b == a;
    } else {
      CountConcat(a, b[..|b| - 1]);
      assert (a + b)[..|a + b| - 1] == a + b[..|b| - 1];
    }
  }

  lemma {:induction false} MembersSize(q: seq<nat>, s: set<nat>)
    requires forall i, j :: 0 <= i < j < |q| ==> q[i] != q[j]
    requires forall a :: a in s <==> a in q
    ensures |s| == |q|
  {
    if q == [] {
      assert s == {};
    } else {
      var last := q[|q| - 1];
      MembersSize(q[..|q| - 1], s - {last});
    }
  }

  lemma RowsExtend(cc: CharClass, s: State, limit: nat, m: State, h: nat, batch: seq<nat>)
    requires h < |s.hooks| && s.hooks[h].active && m.hooks == s.hooks && m.log == s.log && s.rows <= m.rows
    requires RowsFromBacklog(cc, s, m, h) && Backlog(m, h) == Backlog(s, h)
    requires IsBatch(m.log, Backlog(m, h), limit, batch)
    ensures RowsFromBacklog(cc, s, m.(rows := m.rows + NewRows(cc, m, h, batch)), h + 1)
  {
    var m' := m.(rows := m.rows + NewRows(cc, m, h, batch));
    forall i | |s.rows| <= i < |m'.rows|
      ensures m'.rows[i].hook < h + 1 && s.hooks[m'.rows[i].hook].active
              && m'.rows[i].activity in Backlog(s, m'.rows[i].hook)
      ensures m'.rows[i].matched == EventMatches(cc, s.hooks[m'.rows[i].hook].events, s.log[m'.rows[i].activity].action)
    {
      if i >= |m.rows| {
        assert m'.rows[i] == NewRows(cc, m, h, batch)[i - |m.rows|];
        assert batch[i - |m.rows|] in Backlog(m, h);
      }
    }
  }

  lemma ShrinkExtends(cc: CharClass, s: State, limit: nat, m: State, h: nat, batch: seq<nat>)
    requires h < |s.hooks| && s.hooks[h].active && m.hooks == s.hooks && m.log == s.log
    requires BacklogsShrink(s, limit, m, h) && IsBatch(m.log, Backlog(m, h), limit, batch)
    ensures BacklogsShrink(s, limit, m.(rows := m.rows + NewRows(cc, m, h, batch)), h + 1)
  {
    var m' := m.(rows := m.rows + NewRows(cc, m, h, batch));
    var taken := set a | a in batch;
    MembersSize(batch, taken);
    forall g | 0 <= g < |s.hooks|
      ensures if g < h + 1 && s.hooks[g].active then |Backlog(m', g)| == Subtract(|Backlog(s, g)|, limit)
              else Backlog(m', g) == Backlog(s, g)
    {
      BacklogAfter(cc, m, limit, h, batch, g);
      if g == h {
        assert taken <= Backlog(m, h);
      }
    }
  }

  lemma OldestExtends(cc: CharClass, s: State, limit: nat, m: State, h: nat, batch: seq<nat>)
    requires h < |s.hooks| && m.hooks == s.hooks && m.log == s.log && s.rows <= m.rows
    requires OldestTaken(s, m) && RowsFromBacklog(cc, s, m, h) && IsBatch(m.log, Backlog(m, h), limit, batch)
    ensures OldestTaken(s, m.(rows := m.rows + NewRows(cc, m, h, batch)))
  {
    var m' := m.(rows := m.rows + NewRows(cc, m, h, batch));
    forall i, a | |s.rows| <= i < |m'.rows| && m'.rows[i].hook < |m'.hooks| && m'.rows[i].activity < |s.log|
                  && a in Backlog(m', m'.rows[i].hook)
      ensures s.log[m'.rows[i].activity].createdAt <= s.log[a].createdAt
    {
      BacklogAfter(cc, m, limit, h, batch, m'.rows[i].hook);
      if i < |m.rows| {
        assert m'.rows[i] == m.rows[i];
      } else {
        assert m'.rows[i].activity == batch[i - |m.rows|] && m'.rows[i].hook == h;
        assert batch[i - |m.rows|] in batch && a !in batch;
      }
    }
  }

  lemma NewRowsDistinct(cc: CharClass, m: State, limit: nat, h: nat, batch: seq<nat>)
    requires h < |m.hooks| && IsBatch(m.log, Backlog(m, h), limit, batch)
    ensures NoDuplicates(m.rows) ==> NoDuplicates(m.rows + NewRows(cc, m, h, batch))
  {
    forall i, k | 0 <= i < |m.rows| && 0 <= k < |batch| && m.rows[i].hook == h
      ensures m.rows[i].activity != batch[k]
    {
      assert batch[k] in Backlog(m, h);
    }
  }

  /** Serving one more hook extends what the pass has done by that hook. */
  lemma HookExtends(cc: CharClass, s: State, limit: nat, m: State, h: nat, batch: seq<nat>)
    requires h < |s.hooks| && s.hooks[h].active && PassUpTo(cc, s, limit, m, h)
    requires IsBatch(m.log, Backlog(m, h), limit, batch)
    ensures PassUpTo(cc, s, limit, m.(rows := m.rows + NewRows(cc, m, h, batch)), h + 1)
  {
    RowsExtend(cc, s, limit, m, h, batch);
    ShrinkExtends(cc, s, limit, m, h, batch);
    OldestExtends(cc, s, limit, m, h, batch);
    NewRowsDistinct(cc, m, limit, h, batch);
  }

  lemma PassStarts(cc: CharClass, s: State, limit: nat)
    ensures PassUpTo(cc, s, limit, s, 0)
  {
  }

  lemma HookSkips(cc: CharClass, s: State, limit: nat, m: State, h: nat)
    requires h < |s.hooks| && !s.hooks[h].active && PassUpTo(cc, s, limit, m, h)
    ensures PassUpTo(cc, s, limit, m, h + 1)
  {
  }

  // ---------------------------------------------------------------- what a pass queues

  /** A pass queues for a hook only activities of its own workspace that are not older than it, as
      pending exactly if it subscribed to them; and only for active hooks. */
  lemma RowsConcernTheirHook(cc: CharClass, s: State, limit: nat, s': State, i: nat)
    requires PassStep(cc, s, limit, s') && |s.rows| <= i < |s'.rows|
    ensures var d := s'.rows[i];
            && d.hook < |s.hooks| && d.activity < |s.log| && s.hooks[d.hook].active
            && s.log[d.activity].workspace == s.hooks[d.hook].workspace
            && s.log[d.activity].createdAt >= s.hooks[d.hook].createdAt
            && d.matched == EventMatches(cc, s.hooks[d.hook].events, s.log[d.activity].action)
  {
  }

  /** Among the activities that concern a hook and have no row yet after a pass, none is older than
      one the pass has queued for it. */
  lemma OlderFirst(cc: CharClass, s: State, limit: nat, s': State, i: nat, a: nat)
    requires PassStep(cc, s, limit, s') && |s.rows| <= i < |s'.rows| && a < |s.log|
    requires s'.rows[i].hook < |s.hooks| && s'.rows[i].activity < |s.log|
    requires s.log[a].workspace == s.hooks[s'.rows[i].hook].workspace
    requires s.log[a].createdAt >= s.hooks[s'.rows[i].hook].createdAt
    requires forall k :: 0 <= k < |s'.rows| ==> s'.rows[k].hook != s'.rows[i].hook || s'.rows[k].activity != a
    ensures s.log[s'.rows[i].activity].createdAt <= s.log[a].createdAt
  {
    assert a in Backlog(s', s'.rows[i].hook);
  }

  lemma {:induction false} ImageAtMost(s: set<int>, f: int -> nat, image: set<nat>)
    requires forall y :: y in image ==> exists x :: x in s && f(x) == y
    ensures |image| <= |s|
    decreases s
  {
    if image != {} {
      var y :| y in image;
      var x :| x in s && f(x) == y;
      ImageAtMost(s - {x}, f, image - {y});
    }
  }

  /** The rows that a pass adds for a hook. */
  ghost function AddedFor(s: State, s': State, h: nat): set<int> {
    set i | |s.rows| <= i < |s'.rows| && s'.rows[i].hook == h
  }

  lemma TakenFromBacklog(cc: CharClass, s: State, limit: nat, s': State, h: nat)
    requires PassStep(cc, s, limit, s') && h < |s.hooks|
    ensures var taken := set i | i in AddedFor(s, s', h) :: s'.rows[i].activity;
            taken <= Backlog(s, h) && Backlog(s', h) == Backlog(s, h) - taken
  {
    var taken := set i | i in AddedFor(s, s', h) :: s'.rows[i].activity;
    forall a
      ensures Queued(s'.rows, h, a) <==> Queued(s.rows, h, a) || a in taken
    {
      if Queued(s.rows, h, a) {
        var k :| 0 <= k < |s.rows| && s.rows[k].hook == h && s.rows[k].activity == a;
        assert s'.rows[k] == s.rows[k];
      }
      if Queued(s'.rows, h, a) {
        var k :| 0 <= k < |s'.rows| && s'.rows[k].hook == h && s'.rows[k].activity == a;
        assert k < |s.rows| ==> s'.rows[k] == s.rows[k];
        assert k >= |s.rows| ==> k in AddedFor(s, s', h);
      }
    }
  }

  /** A pass that gives an active hook fewer rows than the limit has left nothing out: every activity
      of the hook's workspace that is not older than the hook has a row. */
  lemma ShortPassCoversAll(cc: CharClass, s: State, limit: nat, s': State, h: nat, a: nat)
    requires PassStep(cc, s, limit, s') && h < |s.hooks| && s.hooks[h].active && |AddedFor(s, s', h)| < limit
    requires a < |s.log| && s.log[a].workspace == s.hooks[h].workspace && s.log[a].createdAt >= s.hooks[h].createdAt
    ensures exists i :: 0 <= i < |s'.rows| && s'.rows[i].hook == h && s'.rows[i].activity == a
  {
    var added := AddedFor(s, s', h);
    var taken := set i | i in added :: s'.rows[i].activity;
    TakenFromBacklog(cc, s, limit, s', h);
    TakenAtMost(s', added, taken);
    BacklogEmptied(Backlog(s, h), Backlog(s', h), taken, limit);
    assert a !in Backlog(s', h);
  }

  lemma TakenAtMost(s: State, added: set<int>, taken: set<nat>)
    requires forall i :: i in added ==> 0 <= i < |s.rows|
    requires taken == set i | i in added :: s.rows[i].activity
    ensures |taken| <= |added|
  {
    ImageAtMost(added, (i: int) => if 0 <= i < |s.rows| then s.rows[i].activity else 0, taken);
  }

  lemma BacklogEmptied(before: set<nat>, after: set<nat>, taken: set<nat>, limit: nat)
    requires taken <= before && after == before - taken && |taken| < limit && |after| == Subtract(|before|, limit)
    ensures after == {}
  {
    assert |before - taken| == |before| - |taken|;
  }

  // ---------------------------------------------------------------- runs of passes

  /** After r passes with no new activity an active hook has max(0, backlog - r * limit) left. */
  lemma {:induction false} BacklogDrains(cc: CharClass, states: seq<State>, limit: nat, r: nat, h: nat)
    requires |states| == r + 1 && h < |states[0].hooks| && states[0].hooks[h].active
    requires forall i :: 0 <= i < r ==> PassStep(cc, states[i], limit, states[i + 1])
    ensures states[r].hooks == states[0].hooks
    ensures |Backlog(states[r], h)| == Subtract(|Backlog(states[0], h)|, r * limit)
    decreases r
  {
    if r > 0 {
      BacklogDrains(cc, states[..r], limit, r - 1, h);
      assert PassStep(cc, states[r - 1], limit, states[r]);
      assert r * limit == (r - 1) * limit + limit;
    }
  }

  datatype Event = AddHook(hook: Hook) | SetActive(h: nat, active: bool) | Record(activity: Activity) | Pass(limit: nat)

  ghost predicate Next(cc: CharClass, s: State, e: Event, s': State) {
    match e
    case AddHook(hook) => s' == s.(hooks := s.hooks + [hook])
    case SetActive(h, active) => h < |s.hooks| && s' == s.(hooks := s.hooks[h := s.hooks[h].(active := active)])
    case Record(activity) => s' == s.(log := s.log + [activity])
    case Pass(limit) => PassStep(cc, s, limit, s')
  }

  /** In every run, with hooks and activities arriving in between, no activity ever gets two rows
      for the same hook, and no row is ever lost. */
  lemma {:induction false} RunNoDuplicates(cc: CharClass, states: seq<State>, events: seq<Event>, n: nat)
    requires |states| == |events| + 1 && n <= |events|
    requires forall i :: 0 <= i < |events| ==> Next(cc, states[i], events[i], states[i + 1])
    requires NoDuplicates(states[0].rows)
    ensures NoDuplicates(states[n].rows) && states[0].rows <= states[n].rows
  {
    if n > 0 {
      RunNoDuplicates(cc, states, events, n - 1);
      assert Next(cc, states[n - 1], events[n - 1], states[n]);
    }
  }

  /** Every delivery is of an activity of the hook's own workspace, no older than the hook. */
  ghost predicate RowsConcernHooks(s: State) {
    forall i :: 0 <= i < |s.rows| ==>
      var d := s.rows[i];
      && d.hook < |s.hooks| && d.activity < |s.log|
      && s.log[d.activity].workspace == s.hooks[d.hook].workspace
      && s.log[d.activity].createdAt >= s.hooks[d.hook].createdAt
  }

  lemma NextKeepsConcern(cc: CharClass, s: State, e: Event, s': State)
    requires RowsConcernHooks(s) && Next(cc, s, e, s')
    ensures RowsConcernHooks(s')
  {
    if e.Pass? {
      forall i | 0 <= i < |s'.rows|
        ensures s'.rows[i].hook < |s'.hooks| && s'.rows[i].activity < |s'.log|
        ensures s'.log[s'.rows[i].activity].workspace == s'.hooks[s'.rows[i].hook].workspace
        ensures s'.log[s'.rows[i].activity].createdAt >= s'.hooks[s'.rows[i].hook].createdAt
      {
        if i < |s.rows| {
          assert s'.rows[i] == s.rows[i];
        } else {
          RowsConcernTheirHook(cc, s, e.limit, s', i);
        }
      }
    }
  }

  /** In every run from nothing no workspace's activity is ever queued for another workspace's hook,
      nor one from before the hook was made. */
  lemma {:induction false} RunRowsConcernHooks(cc: CharClass, states: seq<State>, events: seq<Event>, n: nat)
    requires |states| == |events| + 1 && n <= |events| && states[0] == State([], [], [])
    requires forall i :: 0 <= i < |events| ==> Next(cc, states[i], events[i], states[i + 1])
    ensures RowsConcernHooks(states[n])
  {
    if n > 0 {
      RunRowsConcernHooks(cc, states, events, n - 1);
      assert Next(cc, states[n - 1], events[n - 1], states[n]);
      NextKeepsConcern(cc, states[n - 1], events[n - 1], states[n]);
    }
  }
}
