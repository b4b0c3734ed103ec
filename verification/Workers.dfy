/** Any number of workers processing one delivery table: each pass fixes its time, claims unlocked
    rows (FOR UPDATE SKIP LOCKED), sends, and commits or dies. */
module Workers {
  import opened Common
  import opened Retry

  /** An attempt as its pass recorded it: when the pass began and when the message really left. */
  datatype Attempt = Attempt(passAt: int, sentAt: int)

  /** A pass holds locks on the rows still to process and on those already written. */
  datatype Pass = Pass(now: int, pending: set<nat>, written: map<nat, (Row, Option<Attempt>)>)

  datatype System = System(rows: seq<Row>, passes: map<Id, Pass>, history: seq<seq<Attempt>>)

  datatype Action =
    | Enqueue(expiresAt: int)
    | Withdraw(row: nat)
    | Begin(worker: Id, now: int)
    | Claim(worker: Id, ids: set<nat>)
    | Send(worker: Id, row: nat, outcome: Outcome, sentAt: int)
    | Commit(worker: Id)
    | Die(worker: Id)

  predicate Locked(s: System, k: nat) {
    exists w :: w in s.passes && (k in s.passes[w].pending || k in s.passes[w].written)
  }

  /** Whether processing counts as an attempt. */
  predicate Counts(kind: Kind, outcome: Outcome) {
    outcome != Gone || kind == Invitation
  }

  predicate Enabled(kind: Kind, s: System, a: Action) {
    match a
    case Enqueue(_) => true
    case Withdraw(k) => k < |s.rows| && !Locked(s, k)
    case Begin(w, _) => w !in s.passes
    case Claim(w, ids) =>
      && w in s.passes && s.passes[w].pending == {} && s.passes[w].written == map[]
      && forall k :: k in ids ==> k < |s.rows| && !Locked(s, k) && Eligible(kind, s.rows[k], s.passes[w].now)
    case Send(w, k, _, sentAt) =>
      w in s.passes && k in s.passes[w].pending && k < |s.rows| && s.passes[w].now <= sentAt
    case Commit(w) => w in s.passes && s.passes[w].pending == {}
    case Die(w) => w in s.passes
  }

  function CommittedRows(s: System, p: Pass): (rows: seq<Row>)
    ensures |rows| == |s.rows|
  {
    seq(|s.rows|, k requires 0 <= k < |s.rows| => if k in p.written then p.written[k].0 else s.rows[k])
  }

  function CommittedHistory(s: System, p: Pass): (history: seq<seq<Attempt>>)
    ensures |history| == |s.history|
  {
    seq(|s.history|, k requires 0 <= k < |s.history| =>
      if k in p.written && p.written[k].1.Some? then s.history[k] + [p.written[k].1.value] else s.history[k])
  }

  function Step(kind: Kind, s: System, a: Action): System
    requires Enabled(kind, s, a)
  {
    match a
    case Enqueue(expiresAt) => s.(rows := s.rows + [NewRow(expiresAt)], history := s.history + [[]])
    case Withdraw(k) => s.(rows := s.rows[k := s.rows[k].(withdrawn := true)])
    case Begin(w, now) => s.(passes := s.passes[w := Pass(now, {}, map[])])
    case Claim(w, ids) => s.(passes := s.passes[w := s.passes[w].(pending := ids)])
    case Send(w, k, outcome, sentAt) =>
      var p := s.passes[w];
      s.(passes := s.passes[w := Pass(p.now, p.pending - {k},
                                      p.written[k := Written(kind, s.rows[k], p.now, outcome, sentAt)])])
    case Commit(w) =>
      System(CommittedRows(s, s.passes[w]), s.passes - {w}, CommittedHistory(s, s.passes[w]))
    case Die(w) => s.(passes := s.passes - {w})
  }

  // ---------------------------------------------------------------- the invariant

  /** The wait that the protocol owes between the n-th attempt and the next. */
  function Backoff(kind: Kind, n: nat): int {
    if kind == Invitation then 0 else Pow2(n) * MINUTE
  }

  /** Each attempt began at least the owed wait after the one before. */
  ghost predicate Spaced(kind: Kind, h: seq<Attempt>) {
    && (forall j :: 0 <= j < |h| ==> h[j].passAt <= h[j].sentAt)
    && (kind != Invitation ==> forall j :: 0 < j < |h| ==> h[j].passAt >= h[j - 1].passAt + Backoff(kind, j))
  }

  /** An open row that was tried before says exactly how long its next attempt has to wait. */
  ghost predicate WaitSet(kind: Kind, row: Row, h: seq<Attempt>) {
    kind != Invitation && Open(kind, row) && h != [] ==>
      row.nextAttemptAt == Some(h[|h| - 1].passAt + Backoff(kind, |h|))
  }

  /** A row and its committed attempts: one entry per attempt and never more than the limit; a
      webhook that still asks for a send has attempts left. */
  ghost predicate RowValid(kind: Kind, row: Row, h: seq<Attempt>) {
    && |h| == row.attempts <= Limit(kind)
    && Spaced(kind, h) && WaitSet(kind, row, h)
    && (kind == Webhook && (row.status == Pending || row.status == Failed) ==> row.attempts < 5)
  }

  /** What a pass writes for one claimed row, and the attempt it records. */
  function Written(kind: Kind, row: Row, now: int, outcome: Outcome, sentAt: int): (Row, Option<Attempt>) {
    (Process(kind, row, now, outcome), if Counts(kind, outcome) then Some(Attempt(now, sentAt)) else None)
  }

  /** What a pass will write for a row it claimed follows from the row by one processing step. */
  ghost predicate WriteValid(kind: Kind, row: Row, now: int, write: (Row, Option<Attempt>)) {
    && Eligible(kind, row, now)
    && exists outcome, sentAt :: sentAt >= now && write == Written(kind, row, now, outcome, sentAt)
  }

  ghost predicate PassValid(kind: Kind, s: System, p: Pass) {
    && (forall k :: k in p.pending ==> k < |s.rows| && k !in p.written && Eligible(kind, s.rows[k], p.now))
    && (forall k :: k in p.written ==> k < |s.rows| && WriteValid(kind, s.rows[k], p.now, p.written[k]))
  }

  ghost predicate Holds(p: Pass, k: nat) {
    k in p.pending || k in p.written
  }

  ghost predicate Valid(kind: Kind, s: System) {
    && |s.history| == |s.rows|
    && (forall k :: 0 <= k < |s.rows| ==> RowValid(kind, s.rows[k], s.history[k]))
    && (forall w :: w in s.passes ==> PassValid(kind, s, s.passes[w]))
    && (forall v, w, k :: v in s.passes && w in s.passes && v != w && Holds(s.passes[v], k) ==> !Holds(s.passes[w], k))
  }

  lemma ProcessFacts(kind: Kind, row: Row, now: int, outcome: Outcome)
    requires Eligible(kind, row, now)
    ensures var after := Process(kind, row, now, outcome);
            && after.attempts == row.attempts + (if Counts(kind, outcome) then 1 else 0) <= Limit(kind)
            && (kind != Invitation && Open(kind, after) ==>
                  Counts(kind, outcome) && after.nextAttemptAt == Some(now + Backoff(kind, after.attempts)))
            && (kind == Webhook && (after.status == Pending || after.status == Failed) ==> after.attempts < 5)
  {
  }

  lemma SpacedExtends(kind: Kind, row: Row, h: seq<Attempt>, now: int, sentAt: int)
    requires Spaced(kind, h) && WaitSet(kind, row, h) && Eligible(kind, row, now) && now <= sentAt
    ensures Spaced(kind, h + [Attempt(now, sentAt)])
  {
  }

  /** One processing step, whatever the answer, continues a valid row's history validly. */
  lemma ProcessKeepsRow(kind: Kind, row: Row, h: seq<Attempt>, now: int, write: (Row, Option<Attempt>))
    requires RowValid(kind, row, h) && WriteValid(kind, row, now, write)
    ensures RowValid(kind, write.0, if write.1.Some? then h + [write.1.value] else h)
  {
    var outcome, sentAt :| sentAt >= now && write == Written(kind, row, now, outcome, sentAt);
    ProcessFacts(kind, row, now, outcome);
    SpacedExtends(kind, row, h, now, sentAt);
  }

  lemma EnqueueKeeps(kind: Kind, s: System, expiresAt: int)
    requires Valid(kind, s)
    ensures Valid(kind, Step(kind, s, Enqueue(expiresAt)))
  {
    var after := Step(kind, s, Enqueue(expiresAt));
    forall w | w in after.passes
      ensures PassValid(kind, after, after.passes[w])
    {
      assert PassValid(kind, s, s.passes[w]);
    }
  }

  lemma WithdrawKeeps(kind: Kind, s: System, k: nat)
    requires Valid(kind, s) && Enabled(kind, s, Withdraw(k))
    ensures Valid(kind, Step(kind, s, Withdraw(k)))
  {
    var after := Step(kind, s, Withdraw(k));
    forall w | w in after.passes
      ensures PassValid(kind, after, after.passes[w])
    {
      assert PassValid(kind, s, s.passes[w]) && !Holds(s.passes[w], k);
    }
  }

  lemma BeginKeeps(kind: Kind, s: System, w: Id, now: int)
    requires Valid(kind, s) && Enabled(kind, s, Begin(w, now))
    ensures Valid(kind, Step(kind, s, Begin(w, now)))
  {
    var after := Step(kind, s, Begin(w, now));
    forall v | v in after.passes
      ensures PassValid(kind, after, after.passes[v])
    {
      assert v in s.passes ==> PassValid(kind, s, s.passes[v]);
    }
  }

  lemma DieKeeps(kind: Kind, s: System, w: Id)
    requires Valid(kind, s) && Enabled(kind, s, Die(w))
    ensures Valid(kind, Step(kind, s, Die(w)))
  {
    var after := Step(kind, s, Die(w));
    forall v | v in after.passes
      ensures PassValid(kind, after, after.passes[v])
    {
      assert PassValid(kind, s, s.passes[v]);
    }
  }

  lemma ClaimKeeps(kind: Kind, s: System, w: Id, ids: set<nat>)
    requires Valid(kind, s) && Enabled(kind, s, Claim(w, ids))
    ensures Valid(kind, Step(kind, s, Claim(w, ids)))
  {
    var after := Step(kind, s, Claim(w, ids));
    forall v | v in after.passes
      ensures PassValid(kind, after, after.passes[v])
    {
      assert PassValid(kind, s, s.passes[v]);
    }
    forall u, v, k | u in after.passes && v in after.passes && u != v && Holds(after.passes[u], k)
      ensures !Holds(after.passes[v], k)
    {
      assert Holds(s.passes[u], k) || u == w;
      assert k in ids ==> !Locked(s, k);
      assert Holds(s.passes[v], k) ==> Locked(s, k);
      assert Holds(s.passes[u], k) ==> Locked(s, k);
    }
  }

  lemma SendKeeps(kind: Kind, s: System, w: Id, k: nat, outcome: Outcome, sentAt: int)
    requires Valid(kind, s) && Enabled(kind, s, Send(w, k, outcome, sentAt))
    ensures Valid(kind, Step(kind, s, Send(w, k, outcome, sentAt)))
  {
    var after := Step(kind, s, Send(w, k, outcome, sentAt));
    forall v | v in after.passes
      ensures PassValid(kind, after, after.passes[v])
    {
      assert PassValid(kind, s, s.passes[v]);
      if v == w {
        assert after.passes[w].written[k] == Written(kind, s.rows[k], s.passes[w].now, outcome, sentAt);
        assert WriteValid(kind, s.rows[k], s.passes[w].now, after.passes[w].written[k]);
      }
    }
    assert forall v, i :: v in after.passes && Holds(after.passes[v], i) ==> Holds(s.passes[v], i);
  }

  lemma CommitKeepsRows(kind: Kind, s: System, p: Pass, k: nat)
    requires |s.history| == |s.rows| && k < |s.rows| && RowValid(kind, s.rows[k], s.history[k]) && PassValid(kind, s, p)
    ensures RowValid(kind, CommittedRows(s, p)[k], CommittedHistory(s, p)[k])
  {
    if k in p.written {
      ProcessKeepsRow(kind, s.rows[k], s.history[k], p.now, p.written[k]);
    }
  }

  lemma CommitKeepsPass(kind: Kind, s: System, p: Pass, other: Pass, after: System)
    requires PassValid(kind, s, other) && after.rows == CommittedRows(s, p)
    requires forall k :: Holds(other, k) ==> !Holds(p, k)
    ensures PassValid(kind, after, other)
  {
    forall k: nat | Holds(other, k)
      ensures k < |after.rows| && after.rows[k] == s.rows[k]
    {
      assert !Holds(p, k);
    }
  }

  lemma CommitKeeps(kind: Kind, s: System, w: Id)
    requires Valid(kind, s) && Enabled(kind, s, Commit(w))
    ensures Valid(kind, Step(kind, s, Commit(w)))
  {
    var after, p := Step(kind, s, Commit(w)), s.passes[w];
    forall k | 0 <= k < |after.rows|
      ensures RowValid(kind, after.rows[k], after.history[k])
    {
      CommitKeepsRows(kind, s, p, k);
    }
    forall v | v in after.passes
      ensures PassValid(kind, after, after.passes[v])
    {
      CommitKeepsPass(kind, s, p, s.passes[v], after);
    }
  }

  lemma StepKeepsValid(kind: Kind, s: System, a: Action)
    requires Valid(kind, s) && Enabled(kind, s, a)
    ensures Valid(kind, Step(kind, s, a))
  {
    match a
    case Enqueue(expiresAt) => EnqueueKeeps(kind, s, expiresAt);
    case Withdraw(k) => WithdrawKeeps(kind, s, k);
    case Begin(w, now) => BeginKeeps(kind, s, w, now);
    case Claim(w, ids) => ClaimKeeps(kind, s, w, ids);
    case Send(w, k, outcome, sentAt) => SendKeeps(kind, s, w, k, outcome, sentAt);
    case Commit(w) => CommitKeeps(kind, s, w);
    case Die(w) => DieKeeps(kind, s, w);
  }

  // ---------------------------------------------------------------- every run

  const IDLE := System([], map[], [])

  /** The states a run of enabled actions visits. */
  ghost predicate IsRun(kind: Kind, states: seq<System>, actions: seq<Action>) {
    && |states| == |actions| + 1
    && forall i :: 0 <= i < |actions| ==>
         Enabled(kind, states[i], actions[i]) && states[i + 1] == Step(kind, states[i], actions[i])
  }

  lemma {:induction false} StaysValid(kind: Kind, states: seq<System>, actions: seq<Action>, n: nat)
    requires IsRun(kind, states, actions) && Valid(kind, states[0]) && n <= |actions|
    ensures Valid(kind, states[n])
  {
    if n > 0 {
      StaysValid(kind, states, actions, n - 1);
      StepKeepsValid(kind, states[n - 1], actions[n - 1]);
    }
  }

  lemma RunKeepsValid(kind: Kind, states: seq<System>, actions: seq<Action>, n: nat)
    requires IsRun(kind, states, actions) && states[0] == IDLE && n <= |actions|
    ensures Valid(kind, states[n])
  {
    StaysValid(kind, states, actions, n);
  }

  lemma StepRefines(kind: Kind, s: System, a: Action, row: nat)
    requires Valid(kind, s) && Enabled(kind, s, a) && row < |s.rows|
    ensures row < |Step(kind, s, a).rows|
    ensures MachineNext(Limit(kind), kind != Invitation, Abstract(kind, s.rows[row]),
            Abstract(kind, Step(kind, s, a).rows[row]))
  {
    if a.Commit? && row in s.passes[a.worker].written {
      var p := s.passes[a.worker];
      assert PassValid(kind, s, p);
      var outcome, sentAt :| sentAt >= p.now && p.written[row] == Written(kind, s.rows[row], p.now, outcome, sentAt);
      ProcessRefines(kind, s.rows[row], p.now, outcome);
      assert Ready(Abstract(kind, s.rows[row]), AbstractEvent(kind, p.now, outcome).now);
    }
  }

  /** In every run with any number of workers, each row of each table goes through exactly the
      steps of the abstract retry machine. */
  lemma RunRefines(kind: Kind, states: seq<System>, actions: seq<Action>, n: nat, row: nat)
    requires IsRun(kind, states, actions) && states[0] == IDLE && n < |actions| && row < |states[n].rows|
    ensures row < |states[n + 1].rows|
    ensures MachineNext(Limit(kind), kind != Invitation, Abstract(kind, states[n].rows[row]),
            Abstract(kind, states[n + 1].rows[row]))
  {
    RunKeepsValid(kind, states, actions, n);
    StepRefines(kind, states[n], actions[n], row);
  }

  lemma {:induction false} WaitsAddUp(kind: Kind, h: seq<Attempt>, k: nat)
    requires kind != Invitation && 1 <= k <= |h|
    requires forall j :: 0 < j < |h| ==> h[j].passAt >= h[j - 1].passAt + Backoff(kind, j)
    ensures h[k - 1].passAt >= h[0].passAt + (Pow2(k) - 2) * MINUTE
  {
    if k > 1 {
      WaitsAddUp(kind, h, k - 1);
      assert h[k - 1].passAt >= h[k - 2].passAt + Backoff(kind, k - 1);
    }
  }

  /** In every run with any number of workers, deaths included, the k-th committed attempt of a
      webhook or notification begins, and therefore leaves, at least 2^k - 2 minutes after the
      pass of the first began; no row ever has more attempts than its limit. */
  lemma AttemptsSpaced(kind: Kind, states: seq<System>, actions: seq<Action>, n: nat, row: nat, k: nat)
    requires IsRun(kind, states, actions) && states[0] == IDLE && n <= |actions|
    requires row < |states[n].history| && 1 <= k <= |states[n].history[row]|
    ensures |states[n].history[row]| <= Limit(kind)
    ensures kind != Invitation ==>
      var h := states[n].history[row];
      h[k - 1].sentAt >= h[k - 1].passAt >= h[0].passAt + (Pow2(k) - 2) * MINUTE
  {
    RunKeepsValid(kind, states, actions, n);
    assert RowValid(kind, states[n].rows[row], states[n].history[row]);
    if kind != Invitation {
      WaitsAddUp(kind, states[n].history[row], k);
    }
  }

  /** Two successive committed messages of a row leave at least the wait apart, less the time that
      the first spent waiting in its own pass. */
  lemma MessagesSpaced(kind: Kind, states: seq<System>, actions: seq<Action>, n: nat, row: nat, j: nat)
    requires IsRun(kind, states, actions) && states[0] == IDLE && n <= |actions| && kind != Invitation
    requires row < |states[n].history| && 0 < j < |states[n].history[row]|
    ensures var h := states[n].history[row];
            h[j].sentAt - h[j - 1].sentAt >= Backoff(kind, j) - (h[j - 1].sentAt - h[j - 1].passAt)
  {
    RunKeepsValid(kind, states, actions, n);
    assert RowValid(kind, states[n].rows[row], states[n].history[row]);
  }

  /** The fifth webhook attempt comes at least 30 minutes after the first, the third notification
      attempt at least 6. */
  lemma LastAttempts(kind: Kind, states: seq<System>, actions: seq<Action>, n: nat, row: nat)
    requires IsRun(kind, states, actions) && states[0] == IDLE && n <= |actions| && kind != Invitation
    requires row < |states[n].history| && |states[n].history[row]| == Limit(kind)
    ensures var h := states[n].history[row];
            h[|h| - 1].passAt - h[0].passAt >= (if kind == Webhook then 30 else 6) * MINUTE
  {
    AttemptsSpaced(kind, states, actions, n, row, Limit(kind));
    assert Pow2(1) == 2 && Pow2(2) == 4 && Pow2(3) == 8 && Pow2(4) == 16 && Pow2(5) == 32;
  }

  lemma StepKeepsClosed(kind: Kind, s: System, a: Action, row: nat)
    requires Valid(kind, s) && Enabled(kind, s, a)
    requires row < |s.rows| && !Open(kind, s.rows[row])
    ensures row < |Step(kind, s, a).rows|
    ensures Step(kind, s, a).rows[row] == s.rows[row].(withdrawn := Step(kind, s, a).rows[row].withdrawn)
  {
    if a.Commit? {
      assert PassValid(kind, s, s.passes[a.worker]);
    }
  }

  /** A closed row keeps its status, its attempts and its schedule for ever. */
  lemma {:induction false} ClosedForever(kind: Kind, states: seq<System>, actions: seq<Action>, m: nat, n: nat,
      row: nat)
    requires IsRun(kind, states, actions) && states[0] == IDLE && m <= n <= |actions|
    requires row < |states[m].rows| && !Open(kind, states[m].rows[row])
    ensures row < |states[n].rows|
    ensures states[n].rows[row] == states[m].rows[row].(withdrawn := states[n].rows[row].withdrawn)
    decreases n
  {
    if m < n {
      ClosedForever(kind, states, actions, m, n - 1, row);
      RunKeepsValid(kind, states, actions, n - 1);
      StepKeepsClosed(kind, states[n - 1], actions[n - 1], row);
    }
  }

  /** What a row's status says about its attempts and its schedule. */
  predicate Telling(kind: Kind, row: Row) {
    var n, next := row.attempts, row.nextAttemptAt;
    match row.status
    case Pending => n == 0 && next == None
    case Succeeded => 1 <= n <= (if kind == Webhook then 5 else 3) && next == None
    case Failed =>
      (match kind
       case Webhook => 1 <= n <= 4 && next.Some?
       case Notification => 1 <= n <= 3 && (next.Some? <==> n < 3)
       case Invitation => 1 <= n <= 3 && next == None)
    case Skipped =>
      (match kind
       case Webhook => n <= 4 && next == None
       case Notification => n <= 3
       case Invitation => false)
    case Exhausted => kind == Webhook && n == 5 && next == None
  }

  lemma ProcessTells(kind: Kind, row: Row, now: int, outcome: Outcome)
    requires Telling(kind, row) && Eligible(kind, row, now)
    ensures Telling(kind, Process(kind, row, now, outcome))
  {
  }

  lemma WrittenTells(kind: Kind, s: System, p: Pass, k: nat)
    requires PassValid(kind, s, p) && k in p.written && k < |s.rows| && Telling(kind, s.rows[k])
    ensures Telling(kind, p.written[k].0)
  {
    var outcome, sentAt :| sentAt >= p.now && p.written[k] == Written(kind, s.rows[k], p.now, outcome, sentAt);
    ProcessTells(kind, s.rows[k], p.now, outcome);
  }

  lemma StepKeepsTelling(kind: Kind, s: System, a: Action, row: nat)
    requires Valid(kind, s) && Enabled(kind, s, a) && row < |Step(kind, s, a).rows|
    requires row < |s.rows| ==> Telling(kind, s.rows[row])
    ensures Telling(kind, Step(kind, s, a).rows[row])
  {
    var after := Step(kind, s, a);
    if a.Commit? {
      if row in s.passes[a.worker].written {
        WrittenTells(kind, s, s.passes[a.worker], row);
      }
    } else if a.Enqueue? {
      assert row < |s.rows| ==> after.rows[row] == s.rows[row];
    } else if a.Withdraw? {
      assert after.rows[row] == s.rows[row].(withdrawn := after.rows[row].withdrawn);
    } else {
      assert after.rows == s.rows;
    }
  }

  /** In every run a row is untried while pending; a failed webhook is to be tried again and has at most
      four attempts, an exhausted one exactly five; a failed notification has another date exactly
      before its third attempt; invitations are never skipped; only webhooks are exhausted. */
  lemma {:induction false} StatusTells(kind: Kind, states: seq<System>, actions: seq<Action>, n: nat, row: nat)
    requires IsRun(kind, states, actions) && states[0] == IDLE && n <= |actions| && row < |states[n].rows|
    ensures Telling(kind, states[n].rows[row])
  {
    if n > 0 {
      RunKeepsValid(kind, states, actions, n - 1);
      if row < |states[n - 1].rows| {
        StatusTells(kind, states, actions, n - 1, row);
      }
      StepKeepsTelling(kind, states[n - 1], actions[n - 1], row);
    }
  }

  // ---------------------------------------------------------------- the attempts filter

  /** In every reachable state the webhook claim would take the same rows without `attempts < 5`,
      while for notifications `attempts < 3` is what closes exactly the rows that failed for good. */
  lemma AttemptsFilter(kind: Kind, states: seq<System>, actions: seq<Action>, n: nat, row: nat, now: int)
    requires IsRun(kind, states, actions) && states[0] == IDLE && n <= |actions| && row < |states[n].rows|
    ensures var r := states[n].rows[row];
            var asks := (r.status == Pending || r.status == Failed) && Due(r, now);
            && (kind == Webhook ==> (asks <==> Eligible(kind, r, now)))
            && (kind == Notification ==> (asks && !Eligible(kind, r, now) <==> asks && r.attempts == 3))
  {
    RunKeepsValid(kind, states, actions, n);
    assert RowValid(kind, states[n].rows[row], states[n].history[row]);
  }

  /** Such a row exists: three failures leave a notification failed, due at any time, and closed. */
  lemma NotificationNeedsFilter(now: int)
    ensures var r0 := NewRow(0);
            var r1 := Process(Notification, r0, 0, Rejected);
            var r2 := Process(Notification, r1, 2 * MINUTE, Rejected);
            var r3 := Process(Notification, r2, 6 * MINUTE, Rejected);
            && Eligible(Notification, r0, 0) && Eligible(Notification, r1, 2 * MINUTE)
                && Eligible(Notification, r2, 6 * MINUTE)
            && r3.status == Failed && Due(r3, now) && !Eligible(Notification, r3, now)
  {
    assert Pow2(1) == 2 && Pow2(2) == 4;
  }

  // ---------------------------------------------------------------- the decreasing measure

  function Total(kind: Kind, rows: seq<Row>): nat {
    if rows == [] then 0 else Total(kind, rows[..|rows| - 1]) + Remaining(kind, rows[|rows| - 1])
  }

  lemma {:induction false} TotalDrops(kind: Kind, before: seq<Row>, after: seq<Row>, processed: set<nat>)
    requires |before| == |after| && forall k :: k in processed ==> k < |before|
    requires forall k :: 0 <= k < |before| ==>
      Remaining(kind, after[k]) + (if k in processed then 1 else 0) <= Remaining(kind, before[k])
    ensures Total(kind, after) + |processed| <= Total(kind, before)
    decreases |before|
  {
    if before == [] {
      assert processed == {};
    } else {
      var last := |before| - 1;
      TotalDrops(kind, before[..last], after[..last], processed - {last});
    }
  }

  /** How many rows a commit writes. */
  function RowsWritten(s: System, a: Action): nat {
    if a.Commit? && a.worker in s.passes then |s.passes[a.worker].written.Keys| else 0
  }

  lemma StepPaysForWrites(kind: Kind, s: System, a: Action)
    requires Valid(kind, s) && Enabled(kind, s, a)
    ensures Total(kind, Step(kind, s, a).rows) + RowsWritten(s, a)
            <= Total(kind, s.rows) + (if a.Enqueue? then Limit(kind) else 0)
  {
    match a
    case Commit(w) => CommitPays(kind, s, s.passes[w]);
    case Enqueue(expiresAt) =>
      assert (s.rows + [NewRow(expiresAt)])[..|s.rows|] == s.rows;
    case Withdraw(k) =>
      TotalDrops(kind, s.rows, s.rows[k := s.rows[k].(withdrawn := true)], {});
    case _ =>
  }

  lemma WritePays(kind: Kind, row: Row, now: int, write: (Row, Option<Attempt>))
    requires WriteValid(kind, row, now, write)
    ensures Remaining(kind, write.0) < Remaining(kind, row)
  {
    var outcome, sentAt :| sentAt >= now && write == Written(kind, row, now, outcome, sentAt);
    ProcessDecreases(kind, row, now, outcome);
  }

  lemma CommitPays(kind: Kind, s: System, p: Pass)
    requires PassValid(kind, s, p)
    ensures Total(kind, CommittedRows(s, p)) + |p.written.Keys| <= Total(kind, s.rows)
  {
    var after := CommittedRows(s, p);
    forall k | 0 <= k < |s.rows|
      ensures Remaining(kind, after[k]) + (if k in p.written.Keys then 1 else 0) <= Remaining(kind, s.rows[k])
    {
      if k in p.written {
        WritePays(kind, s.rows[k], p.now, p.written[k]);
      }
    }
    TotalDrops(kind, s.rows, after, p.written.Keys);
  }

  function Enqueued(actions: seq<Action>): nat {
    if actions == [] then 0
    else Enqueued(actions[..|actions| - 1]) + (if actions[|actions| - 1].Enqueue? then 1 else 0)
  }

  function WrittenInRun(states: seq<System>, actions: seq<Action>): nat
    requires |states| == |actions| + 1
  {
    if actions == [] then 0
    else
      var n := |actions| - 1;
      WrittenInRun(states[..n + 1], actions[..n]) + RowsWritten(states[n], actions[n])
  }

  /** However many workers run for however long, the committed passes together write at most
      Limit rows per delivery ever queued: delivery work cannot go on without new deliveries. */
  lemma {:induction false} WorkBounded(kind: Kind, states: seq<System>, actions: seq<Action>)
    requires IsRun(kind, states, actions) && states[0] == IDLE
    ensures WrittenInRun(states, actions) + Total(kind, states[|actions|].rows) <= Limit(kind) * Enqueued(actions)
    decreases |actions|
  {
    if actions == [] {
      assert states[0].rows == [] && WrittenInRun(states, actions) == 0;
    } else {
      var n := |actions| - 1;
      assert IsRun(kind, states[..n + 1], actions[..n]);
      WorkBounded(kind, states[..n + 1], actions[..n]);
      RunKeepsValid(kind, states, actions, n);
      StepPaysForWrites(kind, states[n], actions[n]);
      var queued := Enqueued(actions[..n]);
      assert if kind == Webhook then Limit(kind) * (queued + 1) == 5 * queued + 5
              else Limit(kind) * (queued + 1) == 3 * queued + 3;
    }
  }

  // ---------------------------------------------------------------- building runs

  lemma Extend(kind: Kind, states: seq<System>, actions: seq<Action>, a: Action)
      returns (states': seq<System>, actions': seq<Action>)
    requires IsRun(kind, states, actions) && Enabled(kind, states[|actions|], a)
    ensures IsRun(kind, states', actions')
    ensures states' == states + [Step(kind, states[|actions|], a)] && actions' == actions + [a]
  {
    states', actions' := states + [Step(kind, states[|actions|], a)], actions + [a];
  }

  lemma {:induction false} FreshId(ids: set<Id>) returns (unused: Id)
    ensures forall x :: x in ids ==> x < unused
    decreases ids
  {
    if ids == {} {
      unused := 0;
    } else {
      var x :| x in ids;
      var above := FreshId(ids - {x});
      unused := if above > x then above else x + 1;
      assert forall y :: y in ids ==> y == x || y in ids - {x};
    }
  }

  /** A worker takes one free row through a pass up to its failing send. */
  lemma SendingPass(kind: Kind, states: seq<System>, actions: seq<Action>, row: nat, w: Id, now: int, sentAt: int)
    returns (states': seq<System>, actions': seq<Action>)
    requires IsRun(kind, states, actions) && w !in states[|actions|].passes
    requires var s := states[|actions|];
             row < |s.rows| && !Locked(s, row) && Eligible(kind, s.rows[row], now) && now <= sentAt
    ensures IsRun(kind, states', actions')
    ensures actions' == actions + [Begin(w, now), Claim(w, {row}), Send(w, row, Rejected, sentAt)]
    ensures |states'| == |states| + 3 && states <= states' && states'[|actions| + 1].passes[w] == Pass(now, {}, map[])
    ensures var s := states[|actions|];
            states'[|actions'|] == s.(passes := s.passes[w := Pass(now, {},
                map[row := Written(kind, s.rows[row], now, Rejected, sentAt)])])
  {
    var s := states[|actions|];
    states', actions' := Extend(kind, states, actions, Begin(w, now));
    states', actions' := Extend(kind, states', actions', Claim(w, {row}));
    states', actions' := Extend(kind, states', actions', Send(w, row, Rejected, sentAt));
    assert {row} - {row} == {};
    assert states'[|actions'|].passes
            == s.passes[w := Pass(now, {}, map[row := Written(kind, s.rows[row], now, Rejected, sentAt)])];
    assert actions' == actions + [Begin(w, now), Claim(w, {row}), Send(w, row, Rejected, sentAt)];
  }

  function AfterFailure(kind: Kind, s: System, row: nat, now: int, sentAt: int): System
    requires row < |s.rows| && row < |s.history|
  {
    System(s.rows[row := Process(kind, s.rows[row], now, Rejected)], s.passes,
           s.history[row := s.history[row] + [Attempt(now, sentAt)]])
  }

  /** The pass commits: the row has failed once more. */
  lemma FailingPass(kind: Kind, states: seq<System>, actions: seq<Action>, row: nat, w: Id, now: int, sentAt: int)
    returns (states': seq<System>, actions': seq<Action>)
    requires IsRun(kind, states, actions) && w !in states[|actions|].passes
    requires var s := states[|actions|];
             row < |s.rows| == |s.history| && !Locked(s, row) && Eligible(kind, s.rows[row], now) && now <= sentAt
    ensures IsRun(kind, states', actions') && states <= states'
    ensures states'[|actions'|] == AfterFailure(kind, states[|actions|], row, now, sentAt)
    ensures Made(kind, actions', row) == Made(kind, actions, row) + 1
    ensures DiedAfter(states', actions', row) == DiedAfter(states, actions, row)
  {
    var s := states[|actions|];
    var states1, actions1 := SendingPass(kind, states, actions, row, w, now, sentAt);
    SendingCounts(kind, states, actions, states1, actions1, row, w, now, sentAt);
    states', actions' := Extend(kind, states1, actions1, Commit(w));
    LastCounts(kind, states1, actions1, Commit(w), states', row);
    var end := states'[|actions'|];
    assert end.passes == s.passes;
    assert end.rows == s.rows[row := Process(kind, s.rows[row], now, Rejected)];
    assert end.history == s.history[row := s.history[row] + [Attempt(now, sentAt)]];
  }

  /** The pass dies: the message has left and nothing tells. */
  lemma DyingPass(kind: Kind, states: seq<System>, actions: seq<Action>, row: nat, w: Id, now: int, sentAt: int)
    returns (states': seq<System>, actions': seq<Action>)
    requires IsRun(kind, states, actions) && w !in states[|actions|].passes
    requires var s := states[|actions|];
             row < |s.rows| && !Locked(s, row) && Eligible(kind, s.rows[row], now) && now <= sentAt
    ensures IsRun(kind, states', actions') && states <= states'
    ensures actions' == actions + [Begin(w, now), Claim(w, {row}), Send(w, row, Rejected, sentAt), Die(w)]
    ensures states'[|actions'|] == states[|actions|]
    ensures Made(kind, actions', row) == Made(kind, actions, row) + 1
    ensures DiedAfter(states', actions', row) == DiedAfter(states, actions, row) + 1
  {
    var s := states[|actions|];
    var states1, actions1 := SendingPass(kind, states, actions, row, w, now, sentAt);
    SendingCounts(kind, states, actions, states1, actions1, row, w, now, sentAt);
    states', actions' := Extend(kind, states1, actions1, Die(w));
    LastCounts(kind, states1, actions1, Die(w), states', row);
    assert states'[|actions'|].passes == s.passes;
  }

  // ---------------------------------------------------------------- every message that leaves

  /** The pass has made an attempt at the row that is not committed yet. */
  predicate Attempted(p: Pass, row: nat) {
    row in p.written && p.written[row].1.Some?
  }

  function MadeBy(kind: Kind, a: Action, row: nat): nat {
    if a.Send? && a.row == row && Counts(kind, a.outcome) then 1 else 0
  }

  /** How many attempts at the row were made, whatever became of their passes. */
  function Made(kind: Kind, actions: seq<Action>, row: nat): nat {
    if actions == [] then 0
    else Made(kind, actions[..|actions| - 1], row) + MadeBy(kind, actions[|actions| - 1], row)
  }

  function DiesAfter(s: System, a: Action, row: nat): nat {
    if a.Die? && a.worker in s.passes && Attempted(s.passes[a.worker], row) then 1 else 0
  }

  /** How many passes died after attempting the row. */
  function DiedAfter(states: seq<System>, actions: seq<Action>, row: nat): nat
    requires |states| == |actions| + 1
  {
    if actions == [] then 0
    else
      var n := |actions| - 1;
      DiedAfter(states[..n + 1], actions[..n], row) + DiesAfter(states[n], actions[n], row)
  }

  ghost predicate Attempting(s: System, row: nat) {
    exists w :: w in s.passes && Attempted(s.passes[w], row)
  }

  /** Attempts on record: committed, or in the hands of the pass that holds the row. */
  ghost function OnRecord(s: System, row: nat): nat {
    (if row < |s.history| then |s.history[row]| else 0) + (if Attempting(s, row) then 1 else 0)
  }

  lemma LastCounts(kind: Kind, states: seq<System>, actions: seq<Action>, a: Action, states': seq<System>, row: nat)
    requires |states| == |actions| + 1 && |states'| == |states| + 1 && states <= states'
    ensures Made(kind, actions + [a], row) == Made(kind, actions, row) + MadeBy(kind, a, row)
    ensures DiedAfter(states', actions + [a], row) == DiedAfter(states, actions, row)
            + DiesAfter(states[|actions|], a, row)
  {
    assert (actions + [a])[..|actions|] == actions && states'[..|states|] == states;
  }

  lemma SendingCounts(kind: Kind, states: seq<System>, actions: seq<Action>, states': seq<System>,
                      actions': seq<Action>, row: nat, w: Id, now: int, sentAt: int)
    requires |states| == |actions| + 1 && |states'| == |states| + 3 && states <= states'
    requires actions' == actions + [Begin(w, now), Claim(w, {row}), Send(w, row, Rejected, sentAt)]
    ensures Made(kind, actions', row) == Made(kind, actions, row) + 1
    ensures DiedAfter(states', actions', row) == DiedAfter(states, actions, row)
  {
    var n := |states|;
    LastCounts(kind, states, actions, Begin(w, now), states'[..n + 1], row);
    LastCounts(kind, states'[..n + 1], actions + [Begin(w, now)], Claim(w, {row}), states'[..n + 2], row);
    LastCounts(kind, states'[..n + 2], actions + [Begin(w, now)] + [Claim(w, {row})], Send(w, row, Rejected, sentAt),
        states', row);
    assert actions' == actions + [Begin(w, now)] + [Claim(w, {row})] + [Send(w, row, Rejected, sentAt)];
  }

  lemma OthersHandsOff(kind: Kind, s: System, w: Id, v: Id, row: nat)
    requires Valid(kind, s) && w in s.passes && v in s.passes && v != w && Holds(s.passes[w], row)
    ensures !Attempted(s.passes[v], row)
  {
    assert !Holds(s.passes[v], row);
  }

  /** Only the pass that a step touches can change who is attempting a row. */
  lemma AttemptingAfter(s: System, after: System, w: Id, row: nat)
    requires forall v :: v != w ==> (v in after.passes <==> v in s.passes)
    requires forall v :: v != w && v in s.passes ==> after.passes[v] == s.passes[v]
    requires forall v :: v != w && v in s.passes && w in s.passes && Attempted(s.passes[w], row) ==>
            !Attempted(s.passes[v], row)
    requires forall v :: v != w && v in s.passes && w in after.passes && Attempted(after.passes[w], row) ==>
            !Attempted(s.passes[v], row)
    ensures (if Attempting(after, row) then 1 else 0) + (if w in s.passes && Attempted(s.passes[w], row) then 1 else 0)
            == (if Attempting(s, row) then 1 else 0)
                + (if w in after.passes && Attempted(after.passes[w], row) then 1 else 0)
  {
    if v :| v in s.passes && v != w && Attempted(s.passes[v], row) {
      assert v in after.passes && Attempted(after.passes[v], row);
    }
  }

  lemma PassStepRecords(kind: Kind, s: System, a: Action, row: nat)
    requires Valid(kind, s) && Enabled(kind, s, a) && (a.Begin? || a.Claim? || a.Send? || a.Die?)
    ensures OnRecord(Step(kind, s, a), row) + DiesAfter(s, a, row) == OnRecord(s, row) + MadeBy(kind, a, row)
  {
    var after, w := Step(kind, s, a), a.worker;
    forall v | v != w && v in s.passes && w in s.passes && Holds(s.passes[w], row)
      ensures !Attempted(s.passes[v], row)
    {
      OthersHandsOff(kind, s, w, v, row);
    }
    if w in s.passes {
      assert PassValid(kind, s, s.passes[w]);
    }
    AttemptingAfter(s, after, w, row);
  }

  lemma CommitRecords(kind: Kind, s: System, w: Id, row: nat)
    requires Valid(kind, s) && Enabled(kind, s, Commit(w))
    ensures OnRecord(Step(kind, s, Commit(w)), row) == OnRecord(s, row)
  {
    var after, p := Step(kind, s, Commit(w)), s.passes[w];
    assert PassValid(kind, s, p);
    forall v | v != w && v in s.passes && Holds(p, row)
      ensures !Attempted(s.passes[v], row)
    {
      OthersHandsOff(kind, s, w, v, row);
    }
    AttemptingAfter(s, after, w, row);
    assert Attempted(p, row) ==> row < |s.rows|;
  }

  lemma StepRecords(kind: Kind, s: System, a: Action, row: nat)
    requires Valid(kind, s) && Enabled(kind, s, a)
    ensures OnRecord(Step(kind, s, a), row) + DiesAfter(s, a, row) == OnRecord(s, row) + MadeBy(kind, a, row)
  {
    match a
    case Commit(w) => CommitRecords(kind, s, w, row);
    case Enqueue(_) => assert Step(kind, s, a).passes == s.passes;
    case Withdraw(_) => assert Step(kind, s, a).passes == s.passes;
    case _ => PassStepRecords(kind, s, a, row);
  }

  /** Every attempt ever made at a row is committed, in the hands of the pass that holds the row, or
      was lost with its pass. */
  lemma {:induction false} AttemptsConserved(kind: Kind, states: seq<System>, actions: seq<Action>, row: nat)
    requires IsRun(kind, states, actions) && states[0] == IDLE
    ensures Made(kind, actions, row) == OnRecord(states[|actions|], row) + DiedAfter(states, actions, row)
    decreases |actions|
  {
    if actions != [] {
      var n := |actions| - 1;
      assert IsRun(kind, states[..n + 1], actions[..n]);
      AttemptsConserved(kind, states[..n + 1], actions[..n], row);
      RunKeepsValid(kind, states, actions, n);
      StepRecords(kind, states[n], actions[n], row);
    }
  }

  lemma RecordWithinLimit(kind: Kind, s: System, row: nat)
    requires Valid(kind, s)
    ensures OnRecord(s, row) <= Limit(kind)
  {
    if w :| w in s.passes && Attempted(s.passes[w], row) {
      assert PassValid(kind, s, s.passes[w]);
      assert RowValid(kind, s.rows[row], s.history[row]);
    }
  }

  /** The attempts made at a row, dying passes included, are at most the limit plus the number of
      passes that died after attempting it. */
  lemma AttemptsMadeBound(kind: Kind, states: seq<System>, actions: seq<Action>, row: nat)
    requires IsRun(kind, states, actions) && states[0] == IDLE
    ensures Made(kind, actions, row) <= Limit(kind) + DiedAfter(states, actions, row)
  {
    AttemptsConserved(kind, states, actions, row);
    RunKeepsValid(kind, states, actions, |actions|);
    RecordWithinLimit(kind, states[|actions|], row);
  }

  lemma {:induction false} DyingPasses(kind: Kind, deaths: nat) returns (states: seq<System>, actions: seq<Action>)
    ensures IsRun(kind, states, actions) && states[0] == IDLE
    ensures states[|actions|] == System([NewRow(1)], map[], [[]])
    ensures Made(kind, actions, 0) == deaths == DiedAfter(states, actions, 0)
  {
    if deaths == 0 {
      states, actions := Extend(kind, [IDLE], [], Enqueue(1));
      LastCounts(kind, [IDLE], [], Enqueue(1), states, 0);
      assert Made(kind, [], 0) == 0 && DiedAfter([IDLE], [], 0) == 0;
    } else {
      states, actions := DyingPasses(kind, deaths - 1);
      states, actions := DyingPass(kind, states, actions, 0, 0, 0, 0);
    }
  }

  /** Every message, one that will be lost included, waits for the last committed attempt: its pass
      begins, and it leaves, at least the backoff after that attempt's pass began. */
  lemma EveryMessageWaits(kind: Kind, states: seq<System>, actions: seq<Action>, n: nat)
    requires IsRun(kind, states, actions) && states[0] == IDLE && n < |actions| && kind != Invitation
    requires actions[n].Send? && actions[n].row < |states[n].history| && states[n].history[actions[n].row] != []
    ensures var h := states[n].history[actions[n].row];
            actions[n].sentAt >= states[n].passes[actions[n].worker].now >= h[|h| - 1].passAt + Backoff(kind, |h|)
  {
    RunKeepsValid(kind, states, actions, n);
    var s, row, w := states[n], actions[n].row, actions[n].worker;
    assert Enabled(kind, s, actions[n]) && PassValid(kind, s, s.passes[w]);
    assert RowValid(kind, s.rows[row], s.history[row]);
  }

  /** But lost messages owe nothing to each other: wherever a free row is due, any number of them can
      leave at one and the same moment and bring the state back to what it was. */
  lemma {:induction false} LostMessagesBunch(kind: Kind, states: seq<System>, actions: seq<Action>, row: nat,
      now: int, n: nat)
    returns (states': seq<System>, actions': seq<Action>)
    requires IsRun(kind, states, actions)
    requires var s := states[|actions|]; row < |s.rows| && !Locked(s, row) && Eligible(kind, s.rows[row], now)
    ensures IsRun(kind, states', actions') && states <= states' && actions <= actions'
    ensures states'[|actions'|] == states[|actions|]
    ensures Made(kind, actions', row) == Made(kind, actions, row) + n
    ensures forall i :: |actions| <= i < |actions'| && actions'[i].Send? ==>
            actions'[i].row == row && actions'[i].sentAt == now
    decreases n
  {
    if n == 0 {
      states', actions' := states, actions;
    } else {
      var states1, actions1 := LostMessagesBunch(kind, states, actions, row, now, n - 1);
      var w := FreshId(states1[|actions1|].passes.Keys);
      states', actions' := DyingPass(kind, states1, actions1, row, w, now, now);
    }
  }

  /** When the row's next attempt may begin. */
  function DueAt(row: Row): int {
    if row.nextAttemptAt.Some? then row.nextAttemptAt.value else 0
  }

  lemma FailureLeavesOpen(kind: Kind, row: Row)
    requires Open(kind, row) && !row.withdrawn && row.expiresAt == 1
    requires kind == Invitation ==> row.nextAttemptAt == None
    ensures Eligible(kind, row, DueAt(row))
    ensures var after := Process(kind, row, DueAt(row), Rejected);
            && after.attempts == row.attempts + 1 && !after.withdrawn && after.expiresAt == 1
            && (after.attempts < Limit(kind) ==> Open(kind, after))
            && (kind == Invitation ==> after.nextAttemptAt == None)
  {
  }

  lemma {:induction false} FailingPasses(kind: Kind, deaths: nat, n: nat)
      returns (states: seq<System>, actions: seq<Action>, row: Row, h: seq<Attempt>)
    requires n <= Limit(kind)
    ensures IsRun(kind, states, actions) && states[0] == IDLE
    ensures states[|actions|] == System([row], map[], [h])
    ensures row.attempts == n && !row.withdrawn && row.expiresAt == 1
    ensures (n < Limit(kind) ==> Open(kind, row)) && (kind == Invitation ==> row.nextAttemptAt == None)
    ensures Made(kind, actions, 0) == deaths + n && DiedAfter(states, actions, 0) == deaths
  {
    if n == 0 {
      states, actions := DyingPasses(kind, deaths);
      row, h := NewRow(1), [];
    } else {
      states, actions, row, h := FailingPasses(kind, deaths, n - 1);
      var now := DueAt(row);
      FailureLeavesOpen(kind, row);
      states, actions := FailingPass(kind, states, actions, 0, 0, now, now);
      row, h := Process(kind, row, now, Rejected), h + [Attempt(now, now)];
    }
  }

  /** The bound is reached, for every kind of delivery and every number of deaths. */
  lemma AttemptsMadeReached(kind: Kind, deaths: nat) returns (states: seq<System>, actions: seq<Action>)
    ensures IsRun(kind, states, actions) && states[0] == IDLE
    ensures DiedAfter(states, actions, 0) == deaths
    ensures Made(kind, actions, 0) == Limit(kind) + deaths
  {
    var row, h;
    states, actions, row, h := FailingPasses(kind, deaths, Limit(kind));
  }

  // ---------------------------------------------------------------- when messages keep the wait

  lemma {:induction false} HistoryGrows(kind: Kind, states: seq<System>, actions: seq<Action>, n: nat, row: nat)
    requires IsRun(kind, states, actions) && n <= |actions| && row < |states[0].history|
    ensures row < |states[n].history| && states[0].history[row] <= states[n].history[row]
  {
    if n > 0 {
      HistoryGrows(kind, states, actions, n - 1, row);
      assert states[n] == Step(kind, states[n - 1], actions[n - 1]);
    }
  }

  /** However the run goes on from s, the next committed message of the row leaves at least the
      wait after the last one. */
  ghost predicate NextKeepsWait(kind: Kind, s: System, row: nat)
    requires row < |s.history| && s.history[row] != []
  {
    forall states: seq<System>, actions: seq<Action> :: IsRun(kind, states, actions) && states[0] == s ==>
      var h, end := s.history[row], states[|actions|];
      row < |end.history| && |end.history[row]| > |h| ==>
        end.history[row][|h|].sentAt >= h[|h| - 1].sentAt + Backoff(kind, |h|)
  }

  lemma PromptKeepsWait(kind: Kind, s: System, row: nat)
    requires Valid(kind, s) && kind != Invitation && row < |s.history| && s.history[row] != []
    requires var last := s.history[row][|s.history[row]| - 1]; last.sentAt == last.passAt
    ensures NextKeepsWait(kind, s, row)
  {
    var h := s.history[row];
    forall states: seq<System>, actions: seq<Action> | IsRun(kind, states, actions) && states[0] == s
      ensures var end := states[|actions|];
              row < |end.history| && |end.history[row]| > |h| ==>
                end.history[row][|h|].sentAt >= h[|h| - 1].sentAt + Backoff(kind, |h|)
    {
      var end := states[|actions|];
      StaysValid(kind, states, actions, |actions|);
      HistoryGrows(kind, states, actions, |actions|, row);
      assert RowValid(kind, end.rows[row], end.history[row]);
      assert end.history[row][|h| - 1] == h[|h| - 1];
    }
  }

  lemma LateBreaksWait(kind: Kind, s: System, row: nat)
    requires Valid(kind, s) && kind != Invitation && row < |s.rows| && Open(kind, s.rows[row]) && !Locked(s, row)
    requires s.history[row] != []
    requires var last := s.history[row][|s.history[row]| - 1]; last.sentAt > last.passAt
    ensures !NextKeepsWait(kind, s, row)
  {
    var h := s.history[row];
    assert RowValid(kind, s.rows[row], h);
    var last := h[|h| - 1];
    var due := last.passAt + Backoff(kind, |h|);
    var now := if due > last.sentAt then due else last.sentAt;
    var w := FreshId(s.passes.Keys);
    assert IsRun(kind, [s], []);
    var states, actions := FailingPass(kind, [s], [], row, w, now, now);
    assert states[0] == s;
    assert states[|actions|].history[row] == h + [Attempt(now, now)];
  }

  /** For a delivery that has been tried and can be tried again, every continuation keeps the wait
      between the last message and the next exactly when the last message left at the very moment
      its pass began. Otherwise a pass that begins no earlier than the last message left, and no
      earlier than the row was due, sends too soon. */
  lemma NextKeepsWaitIff(kind: Kind, states: seq<System>, actions: seq<Action>, n: nat, row: nat)
    requires IsRun(kind, states, actions) && states[0] == IDLE && n <= |actions| && kind != Invitation
    requires row < |states[n].rows| && row < |states[n].history| && states[n].history[row] != []
    requires Open(kind, states[n].rows[row]) && !Locked(states[n], row)
    ensures NextKeepsWait(kind, states[n], row)
            <==> var h := states[n].history[row]; h[|h| - 1].sentAt == h[|h| - 1].passAt
  {
    RunKeepsValid(kind, states, actions, n);
    var s := states[n];
    var h := s.history[row];
    assert RowValid(kind, s.rows[row], h);
    if h[|h| - 1].sentAt == h[|h| - 1].passAt {
      PromptKeepsWait(kind, s, row);
    } else {
      LateBreaksWait(kind, s, row);
    }
  }

  /** The extreme case: a message that left ten minutes into its pass is sent again at that very
      moment by the next pass. */
  lemma SendsCanBunch() returns (states: seq<System>, actions: seq<Action>)
    ensures IsRun(Webhook, states, actions) && states[0] == IDLE
    ensures states[|actions|].history == [[Attempt(0, 10 * MINUTE), Attempt(10 * MINUTE, 10 * MINUTE)]]
  {
    assert Pow2(1) == 2;
    var t, row := 10 * MINUTE, NewRow(0);
    states, actions := Extend(Webhook, [IDLE], [], Enqueue(0));
    assert states[|actions|] == System([row], map[], [[]]);
    states, actions := FailingPass(Webhook, states, actions, 0, 1, 0, t);
    states, actions := FailingPass(Webhook, states, actions, 0, 1, t, t);
    assert [] + [Attempt(0, t)] + [Attempt(t, t)] == [Attempt(0, t), Attempt(t, t)];
  }
}
