/** Webhook deliveries, notification deliveries and invitation mails: three tables that encode one
    retry protocol. What the outside world answers is an outcome chosen by the environment. */
module Retry {
  import opened Common

  datatype Kind = Webhook | Notification | Invitation

  datatype Status = Pending | Failed | Succeeded | Skipped | Exhausted

  /** One row of any of the three tables. Only invitations expire or are withdrawn (accepted). */
  datatype Row = Row(status: Status, attempts: nat, nextAttemptAt: Option<int>, withdrawn: bool, expiresAt: int)

  /** Gone: the subject of the delivery no longer exists. Misconfigured: preparing the send failed.
      Declined: the sender found the recipient unavailable. */
  datatype Outcome = Gone | Misconfigured | Accepted | Rejected | Declined

  /** Time is counted in microseconds. */
  const MINUTE: int := 60000000

  function Limit(kind: Kind): nat {
    if kind == Webhook then 5 else 3
  }

  function Pow2(n: nat): (p: nat)
    ensures p >= 1
  {
    if n == 0 then 1 else 2 * Pow2(n - 1)
  }

  function NewRow(expiresAt: int): Row {
    Row(Pending, 0, None, false, expiresAt)
  }

  predicate Due(row: Row, now: int) {
    row.nextAttemptAt == None || row.nextAttemptAt.value <= now
  }

  /** The WHERE clause of each worker's claim. */
  predicate Eligible(kind: Kind, row: Row, now: int) {
    && (row.status == Pending || row.status == Failed)
    && row.attempts < Limit(kind)
    && (if kind == Invitation then !row.withdrawn && row.expiresAt > now else Due(row, now))
  }

  // ---------------------------------------------------------------- the three encodings

  function MarkFailed(row: Row, now: int): Row {
    if row.attempts < 5
    then row.(status := Failed, nextAttemptAt := Some(now + Pow2(row.attempts) * MINUTE))
    else row.(status := Exhausted, nextAttemptAt := None)
  }

  function ProcessWebhook(row: Row, now: int, outcome: Outcome): Row {
    match outcome
    case Gone => row.(status := Skipped, nextAttemptAt := None)
    case Accepted => row.(attempts := row.attempts + 1, status := Succeeded, nextAttemptAt := None)
    case _ => MarkFailed(row.(attempts := row.attempts + 1), now)
  }

  function ProcessNotification(row: Row, now: int, outcome: Outcome): Row {
    if outcome == Gone then row.(status := Skipped)
    else
      var tried := row.(attempts := row.attempts + 1);
      match outcome
      case Accepted => tried.(status := Succeeded, nextAttemptAt := None)
      case Declined => tried.(status := Skipped, nextAttemptAt := None)
      case _ =>
        if tried.attempts < 3
        then tried.(status := Failed, nextAttemptAt := Some(now + Pow2(tried.attempts) * MINUTE))
        else tried.(status := Failed, nextAttemptAt := None)
  }

  function ProcessInvitation(row: Row, outcome: Outcome): Row {
    row.(attempts := row.attempts + 1, status := if outcome == Accepted then Succeeded else Failed)
  }

  function Process(kind: Kind, row: Row, now: int, outcome: Outcome): Row {
    match kind
    case Webhook => ProcessWebhook(row, now, outcome)
    case Notification => ProcessNotification(row, now, outcome)
    case Invitation => ProcessInvitation(row, outcome)
  }

  // ---------------------------------------------------------------- the abstract machine

  /** Waiting for its next attempt, or closed for good. */
  datatype Phase = Waiting(notBefore: Option<int>) | Closed

  datatype Machine = Machine(attempts: nat, phase: Phase)

  datatype Event = Try(now: int, ok: bool) | Drop(now: int, tried: bool)

  predicate Ready(m: Machine, now: int) {
    m.phase.Waiting? && (m.phase.notBefore == None || m.phase.notBefore.value <= now)
  }

  /** After the n-th failure wait 2^n minutes, unless the limit is reached or there is no backoff. */
  function Advance(limit: nat, backoff: bool, m: Machine, e: Event): Machine {
    match e
    case Drop(_, tried) => Machine(m.attempts + (if tried then 1 else 0), Closed)
    case Try(now, ok) =>
      var n := m.attempts + 1;
      Machine(n, if ok || n >= limit then Closed
                 else Waiting(if backoff then Some(now + Pow2(n) * MINUTE) else None))
  }

  /** The machine rests, or takes one step that it is ready for. */
  ghost predicate MachineNext(limit: nat, backoff: bool, m: Machine, m': Machine) {
    m' == m || exists e: Event :: Ready(m, e.now) && m' == Advance(limit, backoff, m, e)
  }

  /** A row is waiting while its status asks for a send and attempts are left. */
  predicate Open(kind: Kind, row: Row) {
    (row.status == Pending || row.status == Failed) && row.attempts < Limit(kind)
  }

  function Abstract(kind: Kind, row: Row): Machine {
    Machine(row.attempts,
            if Open(kind, row) then Waiting(if kind == Invitation then None else row.nextAttemptAt) else Closed)
  }

  function AbstractEvent(kind: Kind, now: int, outcome: Outcome): Event {
    match outcome
    case Accepted => Try(now, true)
    case Gone => if kind == Invitation then Try(now, false) else Drop(now, false)
    case Declined => if kind == Notification then Drop(now, true) else Try(now, false)
    case _ => Try(now, false)
  }

  /** Each encoding takes exactly the steps of the abstract machine, and claims a row exactly when
      the machine is ready; an invitation must besides be neither accepted nor expired. */
  lemma ProcessRefines(kind: Kind, row: Row, now: int, outcome: Outcome)
    ensures Eligible(kind, row, now) <==>
      Ready(Abstract(kind, row), now) && (kind == Invitation ==> !row.withdrawn && row.expiresAt > now)
    ensures Eligible(kind, row, now) ==>
      Abstract(kind, Process(kind, row, now, outcome))
      == Advance(Limit(kind), kind != Invitation, Abstract(kind, row), AbstractEvent(kind, now, outcome))
  {
  }

  /** What a webhook delivery ends as: delivered exactly when the answer was a success, skipped when
      its subject is gone; exhausted by the fifth failure, and before that failed, to be tried again
      after 2, 4, 8 and 16 minutes. Every try counts. */
  lemma WebhookOutcomes(row: Row, now: int, outcome: Outcome)
    requires Eligible(Webhook, row, now)
    ensures var after, n := Process(Webhook, row, now, outcome), row.attempts + 1;
            && after == row.(status := after.status, attempts := after.attempts, nextAttemptAt := after.nextAttemptAt)
            && after.attempts == (if outcome == Gone then row.attempts else n)
            && (after.status == Succeeded <==> outcome == Accepted)
            && (after.status == Skipped <==> outcome == Gone)
            && (after.status == Exhausted <==> outcome != Accepted && outcome != Gone && n == 5)
            && (after.status == Failed <==> outcome != Accepted && outcome != Gone && n < 5)
            && after.nextAttemptAt
               == if after.status != Failed then None
                  else Some(now + 60000000 * (if n == 1 then 2 else if n == 2 then 4 else if n == 3 then 8 else 16))
  {
    FirstPowers();
  }

  lemma FirstPowers()
    ensures Pow2(1) == 2 && Pow2(2) == 4 && Pow2(3) == 8 && Pow2(4) == 16
  {
  }

  /** What a notification delivery ends as: sent exactly when accepted, skipped when its notification
      is gone or the sender declines; a failed one waits 2 and then 4 minutes, and the third time for
      nothing any more. */
  lemma NotificationOutcomes(row: Row, now: int, outcome: Outcome)
    requires Eligible(Notification, row, now)
    ensures var after, n := Process(Notification, row, now, outcome), row.attempts + 1;
            && after == row.(status := after.status, attempts := after.attempts, nextAttemptAt := after.nextAttemptAt)
            && after.attempts == (if outcome == Gone then row.attempts else n)
            && (after.status == Succeeded <==> outcome == Accepted)
            && (after.status == Skipped <==> outcome == Gone || outcome == Declined)
            && (after.status == Failed <==> outcome == Misconfigured || outcome == Rejected)
            && (after.status == Failed ==>
                  after.nextAttemptAt
                  == if n == 3 then None else Some(now + 60000000 * (if n == 1 then 2 else 4)))
            && (after.status == Succeeded || outcome == Declined ==> after.nextAttemptAt == None)
  {
    FirstPowers();
  }

  /** An invitation mail is sent or failed, every try counts, and there is no wait. */
  lemma InvitationOutcomes(row: Row, now: int, outcome: Outcome)
    requires Eligible(Invitation, row, now)
    ensures Process(Invitation, row, now, outcome)
            == row.(attempts := row.attempts + 1, status := if outcome == Accepted then Succeeded else Failed)
  {
  }

  /** Which rows a pass may take, in plain terms. */
  lemma EligibleIff(kind: Kind, row: Row, now: int)
    ensures Eligible(kind, row, now)
      <==> && (row.status == Pending || row.status == Failed)
           && row.attempts < (if kind == Webhook then 5 else 3)
           && (kind != Invitation ==> row.nextAttemptAt == None || row.nextAttemptAt.value <= now)
           && (kind == Invitation ==> !row.withdrawn && now < row.expiresAt)
  {
  }

  /** Attempts still possible; every processed row has strictly fewer afterwards. */
  function Remaining(kind: Kind, row: Row): nat {
    if Open(kind, row) then Limit(kind) - row.attempts else 0
  }

  lemma ProcessDecreases(kind: Kind, row: Row, now: int, outcome: Outcome)
    requires Eligible(kind, row, now)
    ensures Remaining(kind, Process(kind, row, now, outcome)) < Remaining(kind, row)
  {
  }

  // ---------------------------------------------------------------- the loops

  class Delivery {
    var status: Status
    var attempts: nat
    var nextAttemptAt: Option<int>
    var withdrawn: bool
    var expiresAt: int

    ghost function Value(): Row
      reads this
    {
      Row(status, attempts, nextAttemptAt, withdrawn, expiresAt)
    }

    constructor (expiresAt: int)
      ensures Value() == NewRow(expiresAt)
    {
      status, attempts, nextAttemptAt, withdrawn, this.expiresAt := Pending, 0, None, false, expiresAt;
    }

    method MarkFailedDelivery(now: int)
      modifies this
      ensures Value() == MarkFailed(old(Value()), now)
    {
      status := Failed;
      if attempts < 5 {
        nextAttemptAt := Some(now + Pow2(attempts) * MINUTE);
      } else {
        status := Exhausted;
        nextAttemptAt := None;
      }
    }

    method SendWebhook(now: int, outcome: Outcome)
      modifies this
      ensures Value() == ProcessWebhook(old(Value()), now, outcome)
    {
      if outcome == Gone {
        status := Skipped;
        nextAttemptAt := None;
        return;
      }
      attempts := attempts + 1;
      if outcome == Accepted {
        status := Succeeded;
        nextAttemptAt := None;
      } else {
        MarkFailedDelivery(now);
      }
    }

    method SendNotification(now: int, outcome: Outcome)
      modifies this
      ensures Value() == ProcessNotification(old(Value()), now, outcome)
    {
      if outcome == Gone {
        status := Skipped;
        return;
      }
      attempts := attempts + 1;
      status := match outcome case Accepted => Succeeded case Declined => Skipped case _ => Failed;
      if status == Succeeded {
        nextAttemptAt := None;
      } else if status == Failed && attempts < 3 {
        nextAttemptAt := Some(now + Pow2(attempts) * MINUTE);
      } else {
        nextAttemptAt := None;
      }
    }

    method SendInvitation(outcome: Outcome)
      modifies this
      ensures Value() == ProcessInvitation(old(Value()), outcome)
    {
      attempts := attempts + 1;
      status := if outcome == Accepted then Succeeded else Failed;
    }
  }

  /** The rows a claim takes: in creation order, eligible, not locked by another pass, at most
      `room` of them. */
  function Claimed(kind: Kind, rows: seq<Row>, now: int, locked: set<nat>, room: nat, i: nat): (ids: seq<nat>)
    requires i <= |rows|
    ensures |ids| <= room
    ensures forall k :: k in ids ==> i <= k < |rows| && k !in locked && Eligible(kind, rows[k], now)
    ensures forall a :: 0 <= a < |ids| ==> i <= ids[a]
    ensures forall a, b :: 0 <= a < b < |ids| ==> ids[a] < ids[b]
    ensures |ids| < room ==> forall k :: i <= k < |rows| && k !in locked && Eligible(kind, rows[k], now) ==> k in ids
    ensures forall k, m :: i <= k < m && m in ids && k !in locked && Eligible(kind, rows[k], now) ==> k in ids
    decreases |rows| - i
  {
    if i == |rows| || room == 0 then []
    else if i !in locked && Eligible(kind, rows[i], now) then [i] + Claimed(kind, rows, now, locked, room - 1, i + 1)
    else Claimed(kind, rows, now, locked, room, i + 1)
  }

  /** One pass over the table: exactly the claimed rows are processed, each once. */
  method ProcessPass(kind: Kind, table: array<Row>, now: int, locked: set<nat>, limit: nat, outcomes: seq<Outcome>)
    requires |outcomes| == table.Length
    modifies table
    ensures var ids := Claimed(kind, old(table[..]), now, locked, limit, 0);
            forall k :: 0 <= k < table.Length ==>
              table[k] == if k in ids then Process(kind, old(table[k]), now, outcomes[k]) else old(table[k])
  {
    var ids := Claimed(kind, table[..], now, locked, limit, 0);
    for j := 0 to |ids|
      invariant forall k :: 0 <= k < table.Length ==>
        table[k] == if k in ids[..j] then Process(kind, old(table[k]), now, outcomes[k]) else old(table[k])
    {
      assert ids[j] in ids && ids[j] !in ids[..j];
      assert ids[..j + 1] == ids[..j] + [ids[j]];
      table[ids[j]] := Process(kind, table[ids[j]], now, outcomes[ids[j]]);
    }
    assert ids[..|ids|] == ids;
  }
}
