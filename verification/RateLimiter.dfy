/** The fixed-window rate limiter: a Redis counter per key that is created by INCR, given a time to
    live by a separate EXPIRE, and forgotten when that time is over. Times are milliseconds. */
module RateLimiter {
  import opened Common

  datatype Key = Absent | Present(count: nat, expiry: Option<int>)

  /** Redis drops a key once its expiry has passed; at the expiry itself the key is still there. */
  function Live(key: Key, now: int): Key {
    if key.Present? && key.expiry.Some? && key.expiry.value < now then Absent else key
  }

  function Increment(key: Key, now: int): Key {
    var k := Live(key, now);
    if k.Absent? then Present(1, None) else k.(count := k.count + 1)
  }

  function Expire(key: Key, now: int, window: int): Key {
    var k := Live(key, now);
    if k.Absent? then k else k.(expiry := Some(now + window))
  }

  /** TTL in whole seconds, rounded to the nearest; -1 for a key that never expires. */
  function Ttl(key: Key, now: int): int {
    if key.Present? && key.expiry.Some? then (key.expiry.value - now + 500) / 1000 else -1
  }

  datatype Verdict = Admitted | TooMany(retryAfter: int) | Died

  /** The counter behind one key. */
  class Limiter {
    var key: Key

    constructor ()
      ensures key == Absent
    {
      key := Absent;
    }

    /** One call: INCR and TTL in one transaction, then EXPIRE if the key is new or has no time to
        live. `dies` says that the process is lost just before the EXPIRE. */
    method Enforce(now: int, limit: nat, windowSeconds: nat, dies: bool) returns (verdict: Verdict)
      requires windowSeconds > 0
      modifies this
      ensures key == CallResult(old(key), now, windowSeconds * 1000, dies)
      ensures verdict == Died <==> dies && NeedsExpiry(Increment(old(key), now))
      ensures verdict == Admitted ==> Increment(old(key), now).count <= limit
      ensures verdict.TooMany? ==>
        && Increment(old(key), now).count > limit && key.Present? && key.expiry.Some?
        && verdict.retryAfter == Max(Ttl(key, now), 1)
    {
      key := Increment(key, now);
      var count, ttl := key.count, Ttl(key, now);
      if count == 1 || ttl < 0 {
        if dies {
          return Died;
        }
        key := Expire(key, now, windowSeconds * 1000);
        ttl := windowSeconds;
      }
      if count > limit {
        return TooMany(Max(ttl, 1));
      }
      return Admitted;
    }
  }

  function Max(a: int, b: int): int {
    if a >= b then a else b
  }

  predicate NeedsExpiry(key: Key) {
    key.Present? && (key.count == 1 || key.expiry == None)
  }

  function CallResult(key: Key, now: int, window: int, dies: bool): Key {
    var k := Increment(key, now);
    if NeedsExpiry(k) && !dies then Expire(k, now, window) else k
  }

  // ---------------------------------------------------------------- any interleaving

  /** What reaches Redis for one key, in time order: the INCRs of the requests, and EXPIREs, each at
      any distance from the INCR it belongs to, repeated, or lost with its process. */
  datatype Event = Incr(at: int) | SetExpiry(at: int)

  /** The key, how many times it has been created, and when that last happened. */
  datatype State = State(key: Key, generation: nat, start: int)

  function Step(s: State, e: Event, window: int): State {
    match e
    case Incr(at) =>
      var key := Increment(s.key, at);
      if Live(s.key, at).Absent? then State(key, s.generation + 1, at) else s.(key := key)
    case SetExpiry(at) => s.(key := Expire(s.key, at, window))
  }

  function After(events: seq<Event>, window: int): State {
    if events == [] then State(Absent, 0, 0)
    else Step(After(events[..|events| - 1], window), events[|events| - 1], window)
  }

  ghost predicate InOrder(events: seq<Event>) {
    forall i, j :: 0 <= i < j < |events| ==> events[i].at <= events[j].at
  }

  /** The state that request i saw. */
  function Seen(events: seq<Event>, window: int, i: nat): State
    requires i < |events|
  {
    After(events[..i + 1], window)
  }

  predicate IsAdmitted(events: seq<Event>, window: int, limit: nat, i: nat)
    requires i < |events|
  {
    events[i].Incr? && Seen(events, window, i).key.Present? && Seen(events, window, i).key.count <= limit
  }

  function AdmittedIn(events: seq<Event>, window: int, limit: nat, from: int, to: int): set<nat> {
    set i | 0 <= i < |events| && from <= events[i].at < to && IsAdmitted(events, window, limit, i)
  }

  lemma SeenNext(events: seq<Event>, window: int, i: nat)
    requires i < |events|
    ensures Seen(events, window, i) == Step(After(events[..i], window), events[i], window)
    ensures i > 0 ==> After(events[..i], window) == Seen(events, window, i - 1)
  {
    assert events[..i + 1][..i] == events[..i];
  }

  /** The key is there through `time`: its expiry, if set, is no earlier, and if it is already
      gone, `now` is later. */
  predicate LastsThrough(s: State, now: int, time: int) {
    && (s.key.Present? && s.key.expiry.Some? ==> s.key.expiry.value >= time)
    && (s.key.Absent? ==> now > time)
  }

  /** A key lives at least a whole window, its last instant included. */
  ghost predicate LongLived(s: State, now: int, window: int) {
    && (s.key.Present? ==> s.generation > 0 && s.key.count >= 1)
    && (s.generation > 0 ==> s.start <= now && LastsThrough(s, now, s.start + window))
  }

  lemma {:induction false} SeenLongLived(events: seq<Event>, window: int, i: nat)
    requires InOrder(events) && window > 0 && i < |events|
    ensures LongLived(Seen(events, window, i), events[i].at, window)
    ensures events[i].Incr? ==> Seen(events, window, i).key.Present?
    ensures events[i].Incr? && Seen(events, window, i).key.count == 1 ==> Seen(events, window, i).start == events[i].at
  {
    SeenNext(events, window, i);
    if i > 0 {
      SeenLongLived(events, window, i - 1);
    } else {
      assert events[..0] == [];
    }
  }

  /** What a later moment sees, compared with an earlier request: the same key, with no smaller
      count and alive at that request's time; or a later key, created after that request and more
      than a window after its key; or a key two or more later, created that much after the request. */
  ghost predicate Progress(early: State, at: int, late: State, now: int, window: int) {
    && early.generation <= late.generation
    && (late.generation == early.generation ==>
          late.start == early.start && LastsThrough(late, now, at)
          && (late.key.Present? && early.key.Present? ==> late.key.count >= early.key.count))
    && (late.generation > early.generation ==> late.start > at && late.start > early.start + window)
    && (late.generation > early.generation + 1 ==> late.start > at + window + 1)
  }

  lemma {:induction false} SeenProgress(events: seq<Event>, window: int, i: nat, j: nat)
    requires InOrder(events) && window > 0 && i <= j < |events| && events[i].Incr?
    ensures Progress(Seen(events, window, i), events[i].at, Seen(events, window, j), events[j].at, window)
    ensures i < j && events[j].Incr? && Seen(events, window, j).generation == Seen(events, window, i).generation
      ==> Seen(events, window, j).key.count > Seen(events, window, i).key.count
    decreases j
  {
    SeenLongLived(events, window, i);
    SeenNext(events, window, j);
    if i < j {
      SeenProgress(events, window, i, j - 1);
      SeenLongLived(events, window, j - 1);
    }
  }

  // ---------------------------------------------------------------- the sliding bound

  lemma {:induction false} Smallest(s: set<nat>) returns (m: nat)
    requires s != {}
    ensures m in s && forall x :: x in s ==> m <= x
    decreases s
  {
    var x :| x in s;
    m := x;
    if s != {x} {
      var rest := Smallest(s - {x});
      m := if rest < x then rest else x;
      assert forall y :: y in s ==> y == x || y in s - {x};
    } else {
      assert forall y :: y in s ==> y in {x};
    }
  }

  /** Numbers the admitted requests of key g from 0 and those of the next key from `limit`. */
  function Code(events: seq<Event>, window: int, limit: nat, g: nat, i: int): int {
    if 0 <= i < |events| && Seen(events, window, i).key.Present? then
      (if Seen(events, window, i).generation == g then 0 else limit) + Seen(events, window, i).key.count - 1
    else -1
  }

  /** Within a window and an instant of the first admitted request only that request's key and the next one
      admit, and if the next one does, the first key had begun before the interval. */
  lemma CodeInRange(events: seq<Event>, window: int, limit: nat, from: int, to: int, m: nat, i: nat)
    requires InOrder(events) && window > 0 && to <= from + window + 2
    requires m in AdmittedIn(events, window, limit, from, to) && i in AdmittedIn(events, window, limit, from, to)
            && m <= i
    ensures Seen(events, window, m).generation <= Seen(events, window, i).generation
    ensures Seen(events, window, i).generation <= Seen(events, window, m).generation + 1
    ensures 0 <= Code(events, window, limit, Seen(events, window, m).generation, i) < 2 * limit
    ensures Seen(events, window, i).generation == Seen(events, window, m).generation
      ==> Code(events, window, limit, Seen(events, window, m).generation, i) < limit
    ensures to <= from + window + 1 && Seen(events, window, i).generation > Seen(events, window, m).generation
      ==> Seen(events, window, m).start < from
    ensures Seen(events, window, m).start < from
            && Seen(events, window, i).generation == Seen(events, window, m).generation
      ==> Code(events, window, limit, Seen(events, window, m).generation, i) > 0
  {
    SeenProgress(events, window, m, i);
    SeenLongLived(events, window, i);
  }

  lemma CodeInjective(events: seq<Event>, window: int, limit: nat, from: int, to: int, g: nat)
    requires InOrder(events) && window > 0
    requires forall i :: i in AdmittedIn(events, window, limit, from, to) ==>
               g <= Seen(events, window, i).generation <= g + 1
    ensures var a := AdmittedIn(events, window, limit, from, to);
            forall i, j :: i in a && j in a && Code(events, window, limit, g, i) == Code(events, window, limit, g, j)
              ==> i == j
  {
    var a := AdmittedIn(events, window, limit, from, to);
    forall i, j | i in a && j in a && i < j
      ensures Code(events, window, limit, g, i) != Code(events, window, limit, g, j)
    {
      SeenProgress(events, window, i, j);
      SeenLongLived(events, window, i);
      SeenLongLived(events, window, j);
    }
  }

  /** Requests in time order, EXPIREs late, repeated or lost: any interval of one window, both ends
      included, admits at most 2 * limit - 1 requests of a key, and one a millisecond longer at most
      2 * limit. */
  lemma AdmittedBound(events: seq<Event>, window: int, limit: nat, from: int)
    requires InOrder(events) && window > 0
    ensures |AdmittedIn(events, window, limit, from, from + window + 1)| <= Max(2 * limit - 1, 0)
    ensures |AdmittedIn(events, window, limit, from, from + window + 2)| <= 2 * limit
  {
    AdmittedAtMost(events, window, limit, from, from + window + 1);
    AdmittedAtMost(events, window, limit, from, from + window + 2);
  }

  lemma AdmittedAtMost(events: seq<Event>, window: int, limit: nat, from: int, to: int)
    requires InOrder(events) && window > 0 && to <= from + window + 2
    ensures |AdmittedIn(events, window, limit, from, to)|
            <= if to <= from + window + 1 then Max(2 * limit - 1, 0) else 2 * limit
  {
    var a := AdmittedIn(events, window, limit, from, to);
    if a != {} {
      var m := Smallest(a);
      var first := Seen(events, window, m);
      forall i | i in a
        ensures first.generation <= Seen(events, window, i).generation <= first.generation + 1
      {
        CodeInRange(events, window, limit, from, to, m, i);
      }
      CodeInjective(events, window, limit, from, to, first.generation);
      var low := if to <= from + window + 1 && first.start < from then 1 else 0;
      var codes := if to <= from + window + 1 && low == 0 then limit else 2 * limit - low;
      var f := (i: int) => Code(events, window, limit, first.generation, i) - low;
      var image := set i | i in a :: f(i);
      CodeInRange(events, window, limit, from, to, m, m);
      forall i | i in a
        ensures f(i) in Range(codes)
      {
        CodeInRange(events, window, limit, from, to, m, i);
      }
      ImageSize(a, f, image);
      SubsetSize(image, Range(codes));
    }
  }

  // ---------------------------------------------------------------- the bound is reached

  function Burst(at: int, k: nat): (b: seq<Event>)
    ensures |b| == k && forall i :: 0 <= i < k ==> b[i] == Incr(at)
  {
    seq(k, _ => Incr(at))
  }

  lemma {:induction false} BurstCounts(prefix: seq<Event>, window: int, at: int, k: nat, key: Key)
    requires After(prefix, window).key == key && key.Present? && key.expiry.Some? && key.expiry.value >= at
    ensures After(prefix + Burst(at, k), window).key == key.(count := key.count + k)
  {
    var events := prefix + Burst(at, k);
    if k == 0 {
      assert events == prefix;
    } else {
      assert events[..|events| - 1] == prefix + Burst(at, k - 1);
      BurstCounts(prefix, window, at, k - 1, key);
    }
  }

  /** One request at 0, limit - 1 in the last instant of its window, and `limit` in the next. */
  function Opening(limit: nat, window: int): seq<Event>
    requires limit >= 1
  {
    [Incr(0), SetExpiry(0)] + Burst(window, limit - 1)
  }

  function TightRun(limit: nat, window: int): seq<Event>
    requires limit >= 1
  {
    Opening(limit, window) + [Incr(window + 1), SetExpiry(window + 1)] + Burst(window + 1, limit - 1)
  }

  lemma OpeningAdmits(limit: nat, window: int, i: nat)
    requires limit >= 1 && window >= 2 && (i == 0 || 2 <= i <= limit)
    ensures IsAdmitted(TightRun(limit, window), window, limit, i)
  {
    var events, start := TightRun(limit, window), [Incr(0), SetExpiry(0)];
    assert After([Incr(0)], window).key == Present(1, None) by { assert [Incr(0)][..0] == []; }
    if i == 0 {
      assert events[..1] == [Incr(0)];
    } else {
      assert start[..1] == [Incr(0)];
      BurstCounts(start, window, window, i - 1, Present(1, Some(window)));
      assert events[..i + 1] == start + Burst(window, i - 1);
    }
  }

  lemma ClosingAdmits(limit: nat, window: int, i: nat)
    requires limit >= 1 && window >= 2 && (i == limit + 1 || limit + 3 <= i <= 2 * limit + 1)
    ensures IsAdmitted(TightRun(limit, window), window, limit, i)
  {
    var events, start, opening := TightRun(limit, window), [Incr(0), SetExpiry(0)], Opening(limit, window);
    assert After([Incr(0)], window).key == Present(1, None) by { assert [Incr(0)][..0] == []; }
    assert start[..1] == [Incr(0)];
    BurstCounts(start, window, window, limit - 1, Present(1, Some(window)));
    assert (opening + [Incr(window + 1)])[..limit + 1] == opening;
    assert After(opening + [Incr(window + 1)], window).key == Present(1, None);
    if i == limit + 1 {
      assert events[..i + 1] == opening + [Incr(window + 1)];
    } else {
      var again := opening + [Incr(window + 1), SetExpiry(window + 1)];
      assert again[..limit + 2] == opening + [Incr(window + 1)];
      BurstCounts(again, window, window + 1, i - limit - 2, Present(1, Some(window + 1 + window)));
      assert events[..i + 1] == again + Burst(window + 1, i - limit - 2);
    }
  }

  /** The position of the k-th request of the tight run, the one at time 0 last. */
  function Place(limit: nat, k: int): int {
    if k < limit - 1 then 2 + k else if k == limit - 1 then limit + 1 else if k < 2 * limit - 1 then k + 3 else 0
  }

  lemma PlaceAdmitted(limit: nat, window: int, k: nat)
    requires limit >= 1 && window >= 2 && k < 2 * limit
    ensures Place(limit, k) in AdmittedIn(TightRun(limit, window), window, limit, 0, window + 2)
    ensures k < 2 * limit - 1 ==> Place(limit, k) in AdmittedIn(TightRun(limit, window), window, limit, 2, window + 2)
  {
    if Place(limit, k) <= limit {
      OpeningAdmits(limit, window, Place(limit, k));
    } else {
      ClosingAdmits(limit, window, Place(limit, k));
    }
  }

  function Widened(x: nat): int { x }

  lemma PlacesDiffer(limit: nat, i: nat, j: nat)
    requires limit >= 1 && i < j < 2 * limit
    ensures Place(limit, i) != Place(limit, j)
  {
  }

  lemma PlacesFit(limit: nat, window: int, n: nat, admitted: set<nat>)
    requires limit >= 1 && n <= 2 * limit
    requires forall k :: 0 <= k < n ==> Place(limit, k) in admitted
    ensures |admitted| >= n
  {
    var f := (k: int) => Place(limit, k);
    forall x, y | x in Range(n) && y in Range(n) && f(x) == f(y)
      ensures x == y
    {
      if x < y {
        PlacesDiffer(limit, x, y);
      } else if y < x {
        PlacesDiffer(limit, y, x);
      }
    }
    var image := set k | k in Range(n) :: f(k);
    ImageSize(Range(n), f, image);
    var wide := set x | x in admitted :: Widened(x);
    ImageSize(admitted, Widened, wide);
    forall x | x in image
      ensures x in wide
    {
      var k :| k in Range(n) && f(k) == x;
      assert Place(limit, k) in admitted && Widened(Place(limit, k)) == x;
    }
    SubsetSize(image, wide);
  }

  lemma AtLeast(limit: nat, window: int, from: int, n: nat)
    requires limit >= 1 && window >= 2
    requires (from == 2 && n == 2 * limit - 1) || (from == 0 && n == 2 * limit)
    ensures |AdmittedIn(TightRun(limit, window), window, limit, from, window + 2)| >= n
  {
    var admitted := AdmittedIn(TightRun(limit, window), window, limit, from, window + 2);
    forall k | 0 <= k < n
      ensures Place(limit, k) in admitted
    {
      PlaceAdmitted(limit, window, k);
    }
    PlacesFit(limit, window, n, admitted);
  }

  lemma TightRunInOrder(limit: nat, window: int)
    requires limit >= 1 && window >= 2
    ensures InOrder(TightRun(limit, window))
  {
  }

  /** The bounds are exact: for every limit and window a run admits 2 * limit - 1 requests in an
      interval of one window, even a half-open one, and 2 * limit in one that is longer than a
      window, both ends included, by a millisecond. */
  lemma BoundReached(limit: nat, window: int)
    requires limit >= 1 && window >= 2
    ensures InOrder(TightRun(limit, window))
    ensures |AdmittedIn(TightRun(limit, window), window, limit, 2, 2 + window)| == 2 * limit - 1
    ensures |AdmittedIn(TightRun(limit, window), window, limit, 0, window + 2)| == 2 * limit
  {
    TightRunInOrder(limit, window);
    AdmittedBound(TightRun(limit, window), window, limit, 0);
    AdmittedAtMost(TightRun(limit, window), window, limit, 2, 2 + window);
    AtLeast(limit, window, 2, 2 * limit - 1);
    AtLeast(limit, window, 0, 2 * limit);
  }

  // ---------------------------------------------------------------- Retry-After

  datatype Call = Call(at: int, dies: bool)

  /** Whole calls one after another. */
  function AfterCalls(key: Key, calls: seq<Call>, window: int): Key {
    if calls == [] then key
    else CallResult(AfterCalls(key, calls[..|calls| - 1], window), calls[|calls| - 1].at, window,
        calls[|calls| - 1].dies)
  }

  lemma {:induction false} ExpiryKept(key: Key, calls: seq<Call>, window: int)
    requires key.Present? && key.count >= 1 && key.expiry.Some?
    requires forall i :: 0 <= i < |calls| ==> calls[i].at <= key.expiry.value
    ensures AfterCalls(key, calls, window) == key.(count := key.count + |calls|)
  {
    if calls != [] {
      ExpiryKept(key, calls[..|calls| - 1], window);
    }
  }

  /** After any call that completes, however many died before it, the key has an expiry at most a
      window away; so no refusal outlives a window. */
  lemma CompletedCallRepairs(key: Key, now: int, window: int)
    requires window > 0
    requires key.Present? && key.expiry.Some? ==> key.expiry.value <= now + window
    ensures var k := CallResult(key, now, window, false);
            k.Present? && k.expiry.Some? && now <= k.expiry.value <= now + window
  {
  }

  /** A refused caller that waits Retry-After seconds, with only whole calls of others before the
      window ends, finds the window over exactly when rounding the remaining time made the wait longer:
      for a remainder of at least half a second, and within the last second. Half a second more is
      always enough. */
  lemma RetryAfterWholeCallsIff(key: Key, now: int, limit: nat, window: int, calls: seq<Call>)
    requires window > 0 && (Live(key, now).Present? ==> Live(key, now).count >= 1)
    requires var k := CallResult(key, now, window, false);
             k.count > limit && forall i :: 0 <= i < |calls| ==> now <= calls[i].at <= k.expiry.value
    ensures var k := CallResult(key, now, window, false);
            var remaining := k.expiry.value - now;
            var retry := now + 1000 * Max(Ttl(k, now), 1);
            && (Live(AfterCalls(k, calls, window), retry).Absent? <==> remaining % 1000 >= 500 || remaining < 1000)
            && Live(AfterCalls(k, calls, window), retry + 500).Absent?
  {
    var k := CallResult(key, now, window, false);
    ExpiryKept(k, calls, window);
  }
  /** What reaches Redis after a state. */
  function AfterFrom(s: State, events: seq<Event>, window: int): State {
    if events == [] then s
    else Step(AfterFrom(s, events[..|events| - 1], window), events[|events| - 1], window)
  }

  /** An EXPIRE arrives while the key is still there. */
  predicate Prolongs(e: Event, expiry: int) {
    e.SetExpiry? && e.at <= expiry
  }

  /** The counter of s is not gone at `time`: it lasts at least that long. */
  predicate Outlasts(s: State, end: State, time: int) {
    end.generation == s.generation && end.key.Present? && end.key.expiry.Some? && end.key.expiry.value >= time
  }

  /** Without such an EXPIRE the counter keeps its expiry and is gone only after it. */
  lemma {:induction false} NotProlonged(s: State, events: seq<Event>, window: int)
    requires s.key.Present? && s.key.expiry.Some?
    requires forall e :: e in events ==> !Prolongs(e, s.key.expiry.value)
    ensures var end := AfterFrom(s, events, window);
            || (end.generation == s.generation && end.key.Present? && end.key.expiry == s.key.expiry)
            || (&& (end.generation > s.generation || (end.generation == s.generation && end.key.Absent?))
                && exists e :: e in events && e.at > s.key.expiry.value)
  {
    if events != [] {
      var init, last := events[..|events| - 1], events[|events| - 1];
      assert events == init + [last];
      NotProlonged(s, init, window);
      assert last in events && !Prolongs(last, s.key.expiry.value);
      if e :| e in init && e.at > s.key.expiry.value {
        assert e in events;
      }
    }
  }

  lemma OutlastsStep(s: State, mid: State, e: Event, window: int, now: int)
    requires Outlasts(s, mid, now + window) && now <= e.at <= now + window
    ensures Outlasts(s, Step(mid, e, window), now + window)
  {
  }

  lemma ProlongsNow(s: State, mid: State, e: Event, window: int, now: int)
    requires s.key.Present? && s.key.expiry.Some?
    requires mid.generation == s.generation && mid.key.Present? && mid.key.expiry == s.key.expiry
    requires Prolongs(e, s.key.expiry.value) && now <= e.at
    ensures Outlasts(s, Step(mid, e, window), now + window)
  {
  }

  /** With one, the counter lasts a whole window from the refusal on. */
  lemma {:induction false} Prolonged(s: State, events: seq<Event>, window: int, now: int)
    requires s.key.Present? && s.key.expiry.Some? && now <= s.key.expiry.value <= now + window
    requires forall i :: 0 <= i < |events| ==> now <= events[i].at <= now + window
    requires InOrder(events) && exists e :: e in events && Prolongs(e, s.key.expiry.value)
    ensures Outlasts(s, AfterFrom(s, events, window), now + window)
  {
    var init, last := events[..|events| - 1], events[|events| - 1];
    assert events == init + [last];
    assert forall i :: 0 <= i < |init| ==> init[i] == events[i] && init[i].at <= last.at;
    assert forall e :: e in init ==> e.at <= last.at;
    if e :| e in init && Prolongs(e, s.key.expiry.value) {
      assert InOrder(init);
      Prolonged(s, init, window, now);
      OutlastsStep(s, AfterFrom(s, init, window), last, window, now);
    } else {
      NotProlonged(s, init, window);
      ProlongsNow(s, AfterFrom(s, init, window), last, window, now);
    }
  }

  /** A refused caller that waits Retry-After seconds, whatever reaches Redis meanwhile, finds the
      counter that refused it gone exactly when rounding lengthened the wait - by a remainder of at
      least half a second, or within the last second - and no EXPIRE of another call, sent late,
      reached the key before it expired. */
  lemma RetryAfterSufficesIff(s: State, now: int, windowSeconds: nat, events: seq<Event>)
    requires windowSeconds > 0 && s.key.Present? && s.key.expiry.Some?
    requires now <= s.key.expiry.value <= now + 1000 * windowSeconds
    requires InOrder(events)
    requires forall i :: 0 <= i < |events| ==> now <= events[i].at <= now + 1000 * Max(Ttl(s.key, now), 1)
    ensures var retry := now + 1000 * Max(Ttl(s.key, now), 1);
            var remaining := s.key.expiry.value - now;
            var end := AfterFrom(s, events, 1000 * windowSeconds);
            end.generation > s.generation || Live(end.key, retry).Absent?
            <==> (remaining % 1000 >= 500 || remaining < 1000) && forall e :: e in events ==>
                !Prolongs(e, s.key.expiry.value)
  {
    var window, retry := 1000 * windowSeconds, now + 1000 * Max(Ttl(s.key, now), 1);
    assert retry <= now + window;
    if e :| e in events && Prolongs(e, s.key.expiry.value) {
      Prolonged(s, events, window, now);
    } else {
      NotProlonged(s, events, window);
      assert forall e :: e in events ==> e.at <= retry;
      assert retry > s.key.expiry.value
             <==> (s.key.expiry.value - now) % 1000 >= 500 || s.key.expiry.value - now < 1000;
    }
  }
}
