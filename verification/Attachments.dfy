/** Attachments against the storage quota of their workspace: uploads lock the workspace row, sum,
    store the object and insert; deletions take no lock, call storage and then delete the row. Each
    phase is one step of an interleaving. */
module Attachments {
  import opened Common

  datatype Config = Config(quota: nat, maxFile: nat)

  datatype Attachment = Attachment(id: Id, workspace: Id, size: nat)

  /** An upload that holds its workspace's row lock; `used` is the sum it read, once it passed. */
  datatype Upload = Upload(attachment: Attachment, used: Option<nat>, stored: bool)

  /** A deletion that has found its row; `called` once its call to storage has returned. */
  datatype Deletion = Deletion(id: Id, called: bool)

  /** The tables, the stored objects, and the requests in flight: uploads, uploads about to clean up
      after a commit that raised, and deletions. */
  datatype State = State(
    rows: seq<Attachment>,
    objects: set<Id>,
    uploads: map<Id, Upload>,
    cleanups: map<Id, Id>,
    deletions: map<Id, Deletion>)

  datatype Event =
    | Begin(session: Id, attachment: Attachment)
    | Check(session: Id)
    | Store(session: Id, ok: bool, leftovers: bool)
    | Commit(session: Id, outcome: Outcome)
    | CleanUp(session: Id, leftovers: bool)
    | BeginDelete(session: Id, id: Id)
    | CallStorage(session: Id, raised: bool, removed: bool)
    | EndDelete(session: Id, outcome: Outcome)
    | Die(session: Id)

  /** How a commit ends. Lost: the handler sees an exception although the database has committed. */
  datatype Outcome = Committed | RolledBack | Lost

  /** The bytes of a workspace's committed attachments. */
  function Used(rows: seq<Attachment>, w: Id): nat {
    if rows == [] then 0
    else Used(rows[..|rows| - 1], w) + (if rows[|rows| - 1].workspace == w then rows[|rows| - 1].size else 0)
  }

  function Without(rows: seq<Attachment>, id: Id): seq<Attachment> {
    if rows == [] then []
    else Without(rows[..|rows| - 1], id) + (if rows[|rows| - 1].id == id then [] else [rows[|rows| - 1]])
  }

  predicate HasRow(rows: seq<Attachment>, id: Id) {
    exists i :: 0 <= i < |rows| && rows[i].id == id
  }

  predicate Locked(s: State, w: Id) {
    exists u :: u in s.uploads && s.uploads[u].attachment.workspace == w
  }

  predicate IdInUse(s: State, id: Id) {
    || HasRow(s.rows, id) || id in s.objects
    || (exists u :: u in s.uploads && s.uploads[u].attachment.id == id)
    || (exists u :: u in s.cleanups && s.cleanups[u] == id)
    || (exists d :: d in s.deletions && s.deletions[d].id == id)
  }

  /** A step whose session is not where the step expects it - refused earlier, or waiting for the
      lock - changes nothing. `leftovers` says that cleaning up storage failed as well. A deletion's
      call to storage may raise or return, each with the object removed or still there. A process may
      die at any point. */
  function Step(c: Config, s: State, e: Event): State {
    match e
    case Begin(session, a) =>
      if session in s.uploads || Locked(s, a.workspace) || IdInUse(s, a.id) then s
      else s.(uploads := s.uploads[session := Upload(a, None, false)])
    case Check(session) =>
      if session !in s.uploads || s.uploads[session].used.Some? then s
      else
        var a := s.uploads[session].attachment;
        var used := Used(s.rows, a.workspace);
        if a.size > c.maxFile || used + a.size > c.quota then s.(uploads := s.uploads - {session})
        else s.(uploads := s.uploads[session := s.uploads[session].(used := Some(used))])
    case Store(session, ok, leftovers) =>
      if session !in s.uploads || s.uploads[session].used == None || s.uploads[session].stored then s
      else
        var id := s.uploads[session].attachment.id;
        if ok then s.(objects := s.objects + {id}, uploads := s.uploads[session := s.uploads[session].(stored := true)])
        else s.(objects := if leftovers then s.objects + {id} else s.objects - {id}, uploads := s.uploads - {session})
    case Commit(session, outcome) =>
      if session !in s.uploads || !s.uploads[session].stored then s
      else
        var a := s.uploads[session].attachment;
        s.(rows := if outcome == RolledBack then s.rows else s.rows + [a],
           uploads := s.uploads - {session},
           cleanups := if outcome == Committed then s.cleanups else s.cleanups[session := a.id])
    case CleanUp(session, leftovers) =>
      if session !in s.cleanups then s
      else s.(objects := if leftovers then s.objects
          else s.objects - {s.cleanups[session]}, cleanups := s.cleanups - {session})
    case BeginDelete(session, id) =>
      if session in s.deletions || !HasRow(s.rows, id) then s
      else s.(deletions := s.deletions[session := Deletion(id, false)])
    case CallStorage(session, raised, removed) =>
      if session !in s.deletions || s.deletions[session].called then s
      else
        var id := s.deletions[session].id;
        s.(objects := if removed then s.objects - {id} else s.objects,
           deletions := if raised then s.deletions - {session} else s.deletions[session := Deletion(id, true)])
    case EndDelete(session, outcome) =>
      if session !in s.deletions || !s.deletions[session].called then s
      else s.(rows := if outcome == RolledBack then s.rows else Without(s.rows, s.deletions[session].id),
              deletions := s.deletions - {session})
    case Die(session) =>
      s.(uploads := s.uploads - {session}, cleanups := s.cleanups - {session}, deletions := s.deletions - {session})
  }

  function Run(c: Config, s: State, es: seq<Event>): State
    decreases |es|
  {
    if es == [] then s else Run(c, Step(c, s, es[0]), es[1..])
  }

  datatype Reply = Created | TooLarge | QuotaExceeded | StorageUnavailable | NotFound | Done | Failed

  class AttachmentStore {
    var rows: seq<Attachment>
    var objects: set<Id>
    var uploads: map<Id, Upload>
    var cleanups: map<Id, Id>
    var deletions: map<Id, Deletion>

    ghost function Value(): State
      reads this
    {
      State(rows, objects, uploads, cleanups, deletions)
    }

    constructor ()
      ensures Value() == State([], {}, map[], map[], map[])
    {
      rows, objects, uploads, cleanups, deletions := [], {}, map[], map[], map[];
    }

    method SumSizes(w: Id) returns (used: nat)
      ensures used == Used(rows, w)
    {
      used := 0;
      for i := 0 to |rows|
        invariant used == Used(rows[..i], w)
      {
        assert rows[..i + 1][..i] == rows[..i];
        if rows[i].workspace == w {
          used := used + rows[i].size;
        }
      }
      assert rows[..|rows|] == rows;
    }

    /** A whole upload by a session that gets the lock, undisturbed. */
    method UploadAttachment(c: Config, session: Id, a: Attachment, storeOk: bool, outcome: Outcome, leftovers: bool)
      returns (reply: Reply)
      requires session !in uploads && session !in cleanups && !Locked(Value(), a.workspace) && !IdInUse(Value(), a.id)
      modifies this`rows, this`objects
      ensures Value() == Run(c, old(Value()), UploadSteps(session, a, storeOk, outcome, leftovers))
      ensures reply == Created
        <==> a.size <= c.maxFile && Used(old(rows), a.workspace) + a.size <= c.quota && storeOk && outcome == Committed
      ensures reply == TooLarge <==> a.size > c.maxFile
      ensures reply == QuotaExceeded
        <==> a.size <= c.maxFile && Used(old(rows), a.workspace) + a.size > c.quota
      ensures reply == StorageUnavailable
        <==> a.size <= c.maxFile && Used(old(rows), a.workspace) + a.size <= c.quota && !storeOk
      ensures reply != NotFound && reply != Done
    {
      UploadRun(c, Value(), session, a, storeOk, outcome, leftovers);
      if a.size > c.maxFile {
        return TooLarge;
      }
      var used := SumSizes(a.workspace);
      if used + a.size > c.quota {
        return QuotaExceeded;
      }
      if !storeOk {
        objects := if leftovers then objects + {a.id} else objects - {a.id};
        return StorageUnavailable;
      }
      objects := objects + {a.id};
      if outcome != RolledBack {
        rows := rows + [a];
      }
      if outcome != Committed {
        objects := if leftovers then objects else objects - {a.id};
        return Failed;
      }
      return Created;
    }

    /** A whole deletion, undisturbed. */
    method DeleteAttachment(c: Config, session: Id, id: Id, raised: bool, removed: bool, outcome: Outcome)
      returns (reply: Reply)
      requires session !in deletions
      modifies this`rows, this`objects
      ensures Value() == Run(c, old(Value()), DeleteSteps(session, id, raised, removed, outcome))
      ensures reply
              == if !HasRow(old(rows), id) then NotFound
                 else if raised then StorageUnavailable
                 else if outcome == Committed then Done else Failed
      ensures reply == Done ==> !HasRow(rows, id)
    {
      DeleteRun(c, Value(), session, id, raised, removed, outcome);
      if !HasRow(rows, id) {
        return NotFound;
      }
      objects := if removed then objects - {id} else objects;
      if raised {
        return StorageUnavailable;
      }
      if outcome != RolledBack {
        WithoutMembers(rows, id);
        rows := Without(rows, id);
      }
      return if outcome == Committed then Done else Failed;
    }
  }

  function UploadSteps(session: Id, a: Attachment, storeOk: bool, outcome: Outcome, leftovers: bool): seq<Event> {
    [Begin(session, a), Check(session), Store(session, storeOk, leftovers), Commit(session, outcome),
        CleanUp(session, leftovers)]
  }

  function DeleteSteps(session: Id, id: Id, raised: bool, removed: bool, outcome: Outcome): seq<Event> {
    [BeginDelete(session, id), CallStorage(session, raised, removed), EndDelete(session, outcome)]
  }

  lemma RunCons(c: Config, s: State, e: Event, es: seq<Event>)
    ensures Run(c, s, [e] + es) == Run(c, Step(c, s, e), es)
  {
    assert ([e] + es)[1..] == es;
  }

  /** What the phases of an undisturbed upload amount to. */
  lemma UploadRun(c: Config, s: State, session: Id, a: Attachment, storeOk: bool, outcome: Outcome, leftovers: bool)
    requires session !in s.uploads && session !in s.cleanups && !Locked(s, a.workspace) && !IdInUse(s, a.id)
    ensures Run(c, s, UploadSteps(session, a, storeOk, outcome, leftovers)) ==
      if a.size > c.maxFile || Used(s.rows, a.workspace) + a.size > c.quota then s
      else if !storeOk then s.(objects := if leftovers then s.objects + {a.id} else s.objects - {a.id})
      else s.(rows := if outcome == RolledBack then s.rows else s.rows + [a],
              objects := if outcome == Committed || leftovers then s.objects + {a.id} else s.objects - {a.id})
  {
    var begun := s.(uploads := s.uploads[session := Upload(a, None, false)]);
    var cleanUp, commit := [CleanUp(session, leftovers)], [Commit(session, outcome), CleanUp(session, leftovers)];
    var store := [Store(session, storeOk, leftovers)] + commit;
    RunCons(c, s, Begin(session, a), [Check(session)] + store);
    RunCons(c, begun, Check(session), store);
    assert UploadSteps(session, a, storeOk, outcome, leftovers) == [Begin(session, a)] + ([Check(session)] + store);
    assert begun.uploads - {session} == s.uploads;
    CheckedRun(c, Step(c, begun, Check(session)), session, storeOk, outcome, leftovers);
    assert store == [Store(session, storeOk, leftovers), Commit(session, outcome), CleanUp(session, leftovers)];
  }

  lemma CheckedRun(c: Config, s: State, session: Id, storeOk: bool, outcome: Outcome, leftovers: bool)
    requires session !in s.cleanups
    requires session in s.uploads ==> s.uploads[session].used.Some? && !s.uploads[session].stored
    ensures Run(c, s, [Store(session, storeOk, leftovers), Commit(session, outcome), CleanUp(session, leftovers)]) ==
      if session !in s.uploads then s
      else
        var a, rest := s.uploads[session].attachment, s.uploads - {session};
        if !storeOk then s.(objects := if leftovers then s.objects + {a.id} else s.objects - {a.id}, uploads := rest)
        else s.(rows := if outcome == RolledBack then s.rows else s.rows + [a], uploads := rest,
                objects := if outcome == Committed || leftovers then s.objects + {a.id} else s.objects - {a.id})
  {
    var e, f, g := Store(session, storeOk, leftovers), Commit(session, outcome), CleanUp(session, leftovers);
    assert [e, f, g] == [e] + ([f] + ([g] + []));
    RunCons(c, s, e, [f] + ([g] + []));
    RunCons(c, Step(c, s, e), f, [g] + []);
    RunCons(c, Step(c, Step(c, s, e), f), g, []);
    if session in s.uploads && storeOk {
      var a := s.uploads[session].attachment;
      assert s.cleanups[session := a.id] - {session} == s.cleanups;
      assert s.objects + {a.id} - {a.id} == s.objects - {a.id};
      assert s.uploads[session := s.uploads[session].(stored := true)] - {session} == s.uploads - {session};
    }
  }

  lemma DeleteRun(c: Config, s: State, session: Id, id: Id, raised: bool, removed: bool, outcome: Outcome)
    requires session !in s.deletions
    ensures Run(c, s, DeleteSteps(session, id, raised, removed, outcome)) ==
      if !HasRow(s.rows, id) then s
      else s.(objects := if removed then s.objects - {id} else s.objects,
              rows := if raised || outcome == RolledBack then s.rows else Without(s.rows, id))
  {
    var e, f, g := BeginDelete(session, id), CallStorage(session, raised, removed), EndDelete(session, outcome);
    assert [e, f, g] == [e] + ([f] + ([g] + []));
    RunCons(c, s, e, [f] + ([g] + []));
    RunCons(c, Step(c, s, e), f, [g] + []);
    RunCons(c, Step(c, Step(c, s, e), f), g, []);
    assert s.deletions[session := Deletion(id, false)] - {session} == s.deletions;
    assert s.deletions[session := Deletion(id, false)][session := Deletion(id, true)] - {session} == s.deletions;
  }

  // ---------------------------------------------------------------- the quota

  /** Nothing committed exceeds the quota, workspaces are locked by one upload at a time, and an
      upload that passed the check still fits: its sum can only have shrunk since. */
  ghost predicate WithinQuota(c: Config, s: State) {
    && (forall w :: Used(s.rows, w) <= c.quota)
    && (forall u, v :: u in s.uploads && v in s.uploads && u != v ==>
          s.uploads[u].attachment.workspace != s.uploads[v].attachment.workspace)
    && (forall u :: u in s.uploads && s.uploads[u].used.Some? ==>
          var up := s.uploads[u];
          Used(s.rows, up.attachment.workspace) <= up.used.value && up.used.value + up.attachment.size <= c.quota)
    && (forall u :: u in s.uploads && s.uploads[u].stored ==> s.uploads[u].used.Some?)
  }

  lemma {:induction false} WithoutUsesLess(rows: seq<Attachment>, id: Id, w: Id)
    ensures Used(Without(rows, id), w) <= Used(rows, w)
  {
    if rows != [] {
      var init, last := rows[..|rows| - 1], rows[|rows| - 1];
      WithoutUsesLess(init, id, w);
      if last.id == id {
        assert Without(rows, id) == Without(init, id);
      } else {
        assert Without(rows, id) == Without(init, id) + [last];
        UsedAppend(Without(init, id), last, w);
      }
    }
  }

  /** The bytes of no rows are none, and each row adds its size to its own workspace. */
  lemma UsedAppend(rows: seq<Attachment>, a: Attachment, w: Id)
    ensures Used([], w) == 0
    ensures Used(rows + [a], w) == Used(rows, w) + (if a.workspace == w then a.size else 0)
  {
    assert (rows + [a])[..|rows|] == rows;
  }

  lemma CommitKeepsQuota(c: Config, s: State, session: Id, cleanups: map<Id, Id>)
    requires WithinQuota(c, s) && session in s.uploads && s.uploads[session].stored
    ensures WithinQuota(c, s.(rows := s.rows + [s.uploads[session].attachment], uploads := s.uploads - {session},
                              cleanups := cleanups))
  {
    var a := s.uploads[session].attachment;
    forall w
      ensures Used(s.rows + [a], w) == Used(s.rows, w) + (if a.workspace == w then a.size else 0)
    {
      UsedAppend(s.rows, a, w);
    }
  }

  lemma DeleteKeepsQuota(c: Config, s: State, id: Id, deletions: map<Id, Deletion>)
    requires WithinQuota(c, s)
    ensures WithinQuota(c, s.(rows := Without(s.rows, id), deletions := deletions))
  {
    forall w
      ensures Used(Without(s.rows, id), w) <= Used(s.rows, w)
    {
      WithoutUsesLess(s.rows, id, w);
    }
  }

  lemma StepKeepsQuota(c: Config, s: State, e: Event)
    requires WithinQuota(c, s)
    ensures WithinQuota(c, Step(c, s, e))
  {
    match e
    case Commit(session, outcome) =>
      if session in s.uploads && s.uploads[session].stored && outcome != RolledBack {
        CommitKeepsQuota(c, s, session, Step(c, s, e).cleanups);
      }
    case EndDelete(session, outcome) =>
      if session in s.deletions && s.deletions[session].called && outcome != RolledBack {
        DeleteKeepsQuota(c, s, s.deletions[session].id, Step(c, s, e).deletions);
      }
    case Check(_) => PhaseKeepsQuota(c, s, e);
    case Store(_, _, _) => PhaseKeepsQuota(c, s, e);
    case _ =>
  }

  lemma PhaseKeepsQuota(c: Config, s: State, e: Event)
    requires WithinQuota(c, s) && (e.Check? || e.Store?)
    ensures WithinQuota(c, Step(c, s, e))
  {
  }

  /** What the usage endpoint reports as remaining. */
  function Remaining(c: Config, used: nat): int {
    if c.quota - used > 0 then c.quota - used else 0
  }

  /** In any interleaving of uploads and deletions no workspace ever exceeds the quota, so the
      reported remaining bytes are exactly the quota minus the used bytes. */
  lemma {:induction false} RunWithinQuota(c: Config, s: State, es: seq<Event>, w: Id)
    requires WithinQuota(c, s)
    ensures var used := Used(Run(c, s, es).rows, w);
            used <= c.quota && Remaining(c, used) == c.quota - used
    decreases |es|
  {
    if es != [] {
      StepKeepsQuota(c, s, es[0]);
      RunWithinQuota(c, Step(c, s, es[0]), es[1..], w);
    }
  }

  // ---------------------------------------------------------------- which rows come and go

  /** `at` picks, in increasing order, exactly the rows with another id. */
  ghost predicate PicksOthers(rows: seq<Attachment>, id: Id, at: seq<nat>) {
    && (forall k :: 0 <= k < |at| ==> at[k] < |rows| && rows[at[k]].id != id)
    && (forall j, k :: 0 <= j < k < |at| ==> at[j] < at[k])
    && (forall i :: 0 <= i < |rows| && rows[i].id != id ==> i in at)
  }

  /** The result has exactly the rows picked. */
  ghost predicate Picked(rows: seq<Attachment>, id: Id, at: seq<nat>, result: seq<Attachment>) {
    PicksOthers(rows, id, at) && |result| == |at| && forall k :: 0 <= k < |at| ==> result[k] == rows[at[k]]
  }

  lemma PickedKeeps(init: seq<Attachment>, last: Attachment, id: Id, at: seq<nat>, result: seq<Attachment>)
    requires Picked(init, id, at, result) && last.id != id
    ensures Picked(init + [last], id, at + [|init|], result + [last])
  {
    var rows, more := init + [last], at + [|init|];
    forall i | 0 <= i < |rows| && rows[i].id != id
      ensures i in more
    {
      if i < |init| {
        assert rows[i] == init[i] && i in at;
      } else {
        assert more[|at|] == i;
      }
    }
  }

  lemma PickedDrops(init: seq<Attachment>, last: Attachment, id: Id, at: seq<nat>, result: seq<Attachment>)
    requires Picked(init, id, at, result) && last.id == id
    ensures Picked(init + [last], id, at, result)
  {
  }

  lemma {:induction false} WithoutPicks(rows: seq<Attachment>, id: Id) returns (at: seq<nat>)
    ensures Picked(rows, id, at, Without(rows, id))
  {
    if rows == [] {
      at := [];
    } else {
      var init, last := rows[..|rows| - 1], rows[|rows| - 1];
      at := WithoutPicks(init, id);
      assert rows == init + [last];
      if last.id == id {
        PickedDrops(init, last, id, at, Without(init, id));
        assert Without(rows, id) == Without(init, id);
      } else {
        PickedKeeps(init, last, id, at, Without(init, id));
        at := at + [|init|];
        assert Without(rows, id) == Without(init, id) + [last];
      }
    }
  }

  /** A deletion that ends with a commit, its reply lost or not, leaves exactly the rows with other
      ids, each once and in the same order. */
  lemma DeletionKeepsOthers(c: Config, s: State, session: Id, outcome: Outcome) returns (at: seq<nat>)
    requires session in s.deletions && s.deletions[session].called && outcome != RolledBack
    ensures var after := Step(c, s, EndDelete(session, outcome));
            && PicksOthers(s.rows, s.deletions[session].id, at)
            && |after.rows| == |at| && forall k :: 0 <= k < |at| ==> after.rows[k] == s.rows[at[k]]
    ensures var after := Step(c, s, EndDelete(session, outcome));
            forall x :: HasRow(after.rows, x) <==> x != s.deletions[session].id && HasRow(s.rows, x)
  {
    var id := s.deletions[session].id;
    at := WithoutPicks(s.rows, id);
    FewerRows(s.rows, id);
    forall x | x != id && HasRow(s.rows, x)
      ensures HasRow(Without(s.rows, id), x)
    {
      var i :| 0 <= i < |s.rows| && s.rows[i].id == x;
      assert i in at;
      var k :| 0 <= k < |at| && at[k] == i;
      assert Without(s.rows, id)[k].id == x;
    }
  }

  ghost predicate DistinctIds(rows: seq<Attachment>) {
    forall i, j :: 0 <= i < j < |rows| ==> rows[i].id != rows[j].id
  }

  lemma {:induction false} UsedWithout(rows: seq<Attachment>, a: Attachment, w: Id)
    requires DistinctIds(rows) && a in rows
    ensures Used(Without(rows, a.id), w) == Used(rows, w) - (if a.workspace == w then a.size else 0)
  {
    var init, last := rows[..|rows| - 1], rows[|rows| - 1];
    assert rows == init + [last];
    if last == a {
      NothingWithout(init, a.id);
      assert Without(rows, a.id) == init;
    } else {
      assert a in init && last.id != a.id;
      UsedWithout(init, a, w);
      assert Without(rows, a.id) == Without(init, a.id) + [last];
      UsedAppend(Without(init, a.id), last, w);
    }
  }

  lemma {:induction false} NothingWithout(rows: seq<Attachment>, id: Id)
    requires forall i :: 0 <= i < |rows| ==> rows[i].id != id
    ensures Without(rows, id) == rows
  {
    if rows != [] {
      NothingWithout(rows[..|rows| - 1], id);
    }
  }

  /** It gives its workspace back exactly the bytes of the attachment, and no other workspace any. */
  lemma DeletionFreesBytes(c: Config, s: State, session: Id, outcome: Outcome, a: Attachment, w: Id)
    requires session in s.deletions && s.deletions[session] == Deletion(a.id, true) && outcome != RolledBack
    requires DistinctIds(s.rows) && a in s.rows
    ensures Used(Step(c, s, EndDelete(session, outcome)).rows, w)
            == Used(s.rows, w) - (if a.workspace == w then a.size else 0)
  {
    UsedWithout(s.rows, a, w);
  }

  /** Ids stay distinct: an upload's is new, and it is the upload's alone until its row is there. */
  lemma StepKeepsDistinct(c: Config, s: State, e: Event)
    requires DistinctIds(s.rows) && UploadsApart(s)
    ensures DistinctIds(Step(c, s, e).rows)
  {
    match e
    case Commit(session, outcome) =>
      if session in s.uploads {
        assert forall i :: 0 <= i < |s.rows| ==> HasRow(s.rows, s.rows[i].id);
      }
    case EndDelete(session, outcome) =>
      if session in s.deletions && s.deletions[session].called && outcome != RolledBack {
        var at := DeletionKeepsOthers(c, s, session, outcome);
      }
    case _ =>
  }

  /** The step ends a deletion of that id with a commit. */
  predicate Deletes(s: State, e: Event, id: Id) {
    e.EndDelete? && e.session in s.deletions && s.deletions[e.session] == Deletion(id, true) && e.outcome != RolledBack
  }

  /** A row goes only when a deletion of its own id commits, and comes only when its own upload does. */
  lemma RowsComeAndGo(c: Config, s: State, e: Event, a: Attachment)
    ensures a in Step(c, s, e).rows <==>
      || (a in s.rows && !Deletes(s, e, a.id))
      || (&& e.Commit? && e.session in s.uploads && s.uploads[e.session].stored && e.outcome != RolledBack
          && s.uploads[e.session].attachment == a)
  {
    if e.EndDelete? && e.session in s.deletions && s.deletions[e.session].called && e.outcome != RolledBack {
      var at := DeletionKeepsOthers(c, s, e.session, e.outcome);
      if a in s.rows && a.id != s.deletions[e.session].id {
        var i :| 0 <= i < |s.rows| && s.rows[i] == a;
        assert i in at;
        var k :| 0 <= k < |at| && at[k] == i;
        assert Step(c, s, e).rows[k] == a;
      }
    }
  }

  predicate NeverDeletes(c: Config, s: State, es: seq<Event>, id: Id)
    decreases |es|
  {
    es != [] ==> !Deletes(s, es[0], id) && NeverDeletes(c, Step(c, s, es[0]), es[1..], id)
  }

  /** In any interleaving a committed attachment stays until a deletion of its own id commits. */
  lemma {:induction false} AttachmentStays(c: Config, s: State, es: seq<Event>, a: Attachment)
    requires a in s.rows && NeverDeletes(c, s, es, a.id)
    ensures a in Run(c, s, es).rows
    decreases |es|
  {
    if es != [] {
      RowsComeAndGo(c, s, es[0], a);
      AttachmentStays(c, Step(c, s, es[0]), es[1..], a);
    }
  }

  // ---------------------------------------------------------------- rows and stored objects

  lemma {:induction false} WithoutMembers(rows: seq<Attachment>, id: Id)
    ensures forall i :: 0 <= i < |Without(rows, id)| ==> Without(rows, id)[i].id != id && Without(rows, id)[i] in rows
  {
    if rows != [] {
      WithoutMembers(rows[..|rows| - 1], id);
    }
  }

  /** A deletion of the attachment other than that of `except` has called storage and not ended. */
  predicate BeingDeleted(s: State, id: Id, except: Option<Id>) {
    exists d :: d in s.deletions && s.deletions[d] == Deletion(id, true) && Some(d) != except
  }

  /** Every committed row has its object in storage, or is on its way out. */
  ghost predicate ObjectsPresent(s: State) {
    forall i :: 0 <= i < |s.rows| ==> s.rows[i].id in s.objects || BeingDeleted(s, s.rows[i].id, None)
  }

  /** The ids of uploads are theirs alone and have no rows yet, and what they stored is there. */
  ghost predicate UploadsApart(s: State) {
    && (forall u :: u in s.uploads ==> !HasRow(s.rows, s.uploads[u].attachment.id))
    && (forall u :: u in s.uploads && s.uploads[u].stored ==> s.uploads[u].attachment.id in s.objects)
    && (forall u, v :: u in s.uploads && v in s.uploads && u != v ==>
          s.uploads[u].attachment.id != s.uploads[v].attachment.id)
    && (forall u, v :: u in s.uploads && v in s.cleanups ==> s.uploads[u].attachment.id != s.cleanups[v])
    && (forall u, d :: u in s.uploads && d in s.deletions ==> s.uploads[u].attachment.id != s.deletions[d].id)
  }

  /** The step takes away the object of a committed row, or the last deletion that accounts for its
      absence: a deletion whose storage call removes the object and raises, or which ends without a
      commit; or an upload that cleans up although its row was committed. */
  predicate Orphans(s: State, e: Event) {
    match e
    case CallStorage(session, raised, removed) =>
      && session in s.deletions && !s.deletions[session].called && raised && removed
      && HasRow(s.rows, s.deletions[session].id) && !BeingDeleted(s, s.deletions[session].id, None)
    case EndDelete(session, outcome) => outcome == RolledBack && LeavesGap(s, session)
    case Die(session) => LeavesGap(s, session)
    case CleanUp(session, leftovers) =>
      && session in s.cleanups && !leftovers
      && HasRow(s.rows, s.cleanups[session]) && !BeingDeleted(s, s.cleanups[session], None)
    case _ => false
  }

  /** The session's deletion is all that accounts for a row without its object. */
  predicate LeavesGap(s: State, session: Id) {
    && session in s.deletions && s.deletions[session].called
    && var id := s.deletions[session].id;
       HasRow(s.rows, id) && id !in s.objects && !BeingDeleted(s, id, Some(session))
  }

  lemma StepKeepsUploadsApart(c: Config, s: State, e: Event)
    requires UploadsApart(s)
    ensures UploadsApart(Step(c, s, e))
  {
    match e
    case Commit(session, outcome) => CommitKeepsApart(c, s, session, outcome);
    case EndDelete(session, outcome) =>
      if session in s.deletions {
        FewerRows(s.rows, s.deletions[session].id);
      }
    case Begin(_, _) => UploadPhasesKeepApart(c, s, e);
    case Check(_) => UploadPhasesKeepApart(c, s, e);
    case Store(_, _, _) => UploadPhasesKeepApart(c, s, e);
    case _ => OtherPhasesKeepApart(c, s, e);
  }

  lemma UploadPhasesKeepApart(c: Config, s: State, e: Event)
    requires UploadsApart(s) && (e.Begin? || e.Check? || e.Store?)
    ensures UploadsApart(Step(c, s, e))
  {
  }

  lemma OtherPhasesKeepApart(c: Config, s: State, e: Event)
    requires UploadsApart(s) && (e.CleanUp? || e.BeginDelete? || e.CallStorage? || e.Die?)
    ensures UploadsApart(Step(c, s, e))
  {
  }

  lemma FewerRows(rows: seq<Attachment>, id: Id)
    ensures forall x :: HasRow(Without(rows, id), x) ==> x != id && HasRow(rows, x)
  {
    WithoutMembers(rows, id);
    forall x | HasRow(Without(rows, id), x)
      ensures x != id && HasRow(rows, x)
    {
      var j :| 0 <= j < |Without(rows, id)| && Without(rows, id)[j].id == x;
      var k :| 0 <= k < |rows| && rows[k] == Without(rows, id)[j];
    }
  }

  lemma MoreRows(rows: seq<Attachment>, a: Attachment)
    ensures forall x :: HasRow(rows + [a], x) <==> x == a.id || HasRow(rows, x)
  {
    var more := rows + [a];
    assert more[|rows|] == a;
    forall x | HasRow(rows, x)
      ensures HasRow(more, x)
    {
      var k :| 0 <= k < |rows| && rows[k].id == x;
      assert more[k] == rows[k];
    }
  }

  lemma CommitKeepsApart(c: Config, s: State, session: Id, outcome: Outcome)
    requires UploadsApart(s)
    ensures UploadsApart(Step(c, s, Commit(session, outcome)))
  {
    if session in s.uploads {
      MoreRows(s.rows, s.uploads[session].attachment);
    }
  }

  /** The step leaves every row with its object, or being deleted, exactly when it is not of those
      kinds; no other failure of storage, commit or process does harm. */
  lemma ObjectsPresentIff(c: Config, s: State, e: Event)
    requires ObjectsPresent(s) && UploadsApart(s)
    ensures ObjectsPresent(Step(c, s, e)) <==> !Orphans(s, e)
  {
    match e
    case CallStorage(session, raised, removed) => CallPresentIff(c, s, session, raised, removed);
    case EndDelete(session, outcome) => EndPresentIff(c, s, session, outcome);
    case Die(session) => DeathPresentIff(c, s, session);
    case CleanUp(session, leftovers) => CleanUpPresentIff(c, s, session, leftovers);
    case _ => OthersKeepPresent(c, s, e);
  }

  /** Deletions that have called storage are still there. */
  lemma StillDeleted(s: State, s': State, id: Id)
    requires BeingDeleted(s, id, None)
    requires forall d :: d in s.deletions && s.deletions[d] == Deletion(id, true) ==>
      d in s'.deletions && s'.deletions[d] == s.deletions[d]
    ensures BeingDeleted(s', id, None)
  {
    var d :| d in s.deletions && s.deletions[d] == Deletion(id, true);
    assert d in s'.deletions && s'.deletions[d] == Deletion(id, true);
  }

  lemma OthersKeepPresent(c: Config, s: State, e: Event)
    requires ObjectsPresent(s) && UploadsApart(s)
    requires !e.CallStorage? && !e.EndDelete? && !e.Die? && !e.CleanUp?
    ensures ObjectsPresent(Step(c, s, e))
  {
    var after := Step(c, s, e);
    forall i | 0 <= i < |after.rows|
      ensures after.rows[i].id in after.objects || BeingDeleted(after, after.rows[i].id, None)
    {
      if i < |s.rows| {
        assert after.rows[i] == s.rows[i] && HasRow(s.rows, s.rows[i].id);
        if BeingDeleted(s, s.rows[i].id, None) {
          StillDeleted(s, after, s.rows[i].id);
        }
      }
    }
  }

  lemma CallPresentIff(c: Config, s: State, session: Id, raised: bool, removed: bool)
    requires ObjectsPresent(s)
    ensures ObjectsPresent(Step(c, s, CallStorage(session, raised, removed)))
            <==> !Orphans(s, CallStorage(session, raised, removed))
  {
    var after := Step(c, s, CallStorage(session, raised, removed));
    if session in s.deletions && !s.deletions[session].called {
      var id := s.deletions[session].id;
      forall i | 0 <= i < |s.rows| && (s.rows[i].id != id || !raised || !removed || BeingDeleted(s, id, None))
        ensures s.rows[i].id in after.objects || BeingDeleted(after, s.rows[i].id, None)
      {
        if BeingDeleted(s, s.rows[i].id, None) {
          StillDeleted(s, after, s.rows[i].id);
        } else if s.rows[i].id == id && !raised {
          assert after.deletions[session] == Deletion(id, true);
        }
      }
      if Orphans(s, CallStorage(session, raised, removed)) {
        var i :| 0 <= i < |s.rows| && s.rows[i].id == id;
        assert !BeingDeleted(after, id, None);
      }
    }
  }

  lemma DeathPresentIff(c: Config, s: State, session: Id)
    requires ObjectsPresent(s)
    ensures ObjectsPresent(Step(c, s, Die(session))) <==> !LeavesGap(s, session)
  {
    GapIff(s, Step(c, s, Die(session)), session);
  }

  /** Ending a deletion without deleting the row. */
  lemma GapIff(s: State, after: State, session: Id)
    requires ObjectsPresent(s)
    requires after.rows == s.rows && after.objects == s.objects && after.deletions == s.deletions - {session}
    ensures ObjectsPresent(after) <==> !LeavesGap(s, session)
  {
    forall id
      ensures BeingDeleted(after, id, None) <==> BeingDeleted(s, id, Some(session))
    {
      if d :| d in s.deletions && s.deletions[d] == Deletion(id, true) && Some(d) != Some(session) {
        assert d in after.deletions && after.deletions[d] == Deletion(id, true);
      }
      if d :| d in after.deletions && after.deletions[d] == Deletion(id, true) {
        assert d in s.deletions && d != session;
      }
    }
    forall i | 0 <= i < |s.rows| && BeingDeleted(s, s.rows[i].id, None) && !BeingDeleted(s, s.rows[i].id, Some(session))
      ensures session in s.deletions && s.deletions[session] == Deletion(s.rows[i].id, true)
              && HasRow(s.rows, s.rows[i].id)
    {
    }
  }

  lemma EndPresentIff(c: Config, s: State, session: Id, outcome: Outcome)
    requires ObjectsPresent(s)
    ensures ObjectsPresent(Step(c, s, EndDelete(session, outcome))) <==> !Orphans(s, EndDelete(session, outcome))
  {
    var after := Step(c, s, EndDelete(session, outcome));
    if session in s.deletions && s.deletions[session].called {
      var id := s.deletions[session].id;
      if outcome == RolledBack {
        GapIff(s, after, session);
      } else {
        WithoutMembers(s.rows, id);
        forall i | 0 <= i < |after.rows|
          ensures after.rows[i].id in after.objects || BeingDeleted(after, after.rows[i].id, None)
        {
          assert after.rows[i] in s.rows && after.rows[i].id != id;
          if BeingDeleted(s, after.rows[i].id, None) {
            StillDeleted(s, after, after.rows[i].id);
          }
        }
      }
    }
  }

  lemma CleanUpPresentIff(c: Config, s: State, session: Id, leftovers: bool)
    requires ObjectsPresent(s)
    ensures ObjectsPresent(Step(c, s, CleanUp(session, leftovers))) <==> !Orphans(s, CleanUp(session, leftovers))
  {
    var after := Step(c, s, CleanUp(session, leftovers));
    assert forall id :: BeingDeleted(after, id, None) <==> BeingDeleted(s, id, None);
    if Orphans(s, CleanUp(session, leftovers)) {
      var i :| 0 <= i < |s.rows| && s.rows[i].id == s.cleanups[session];
      assert s.rows[i].id !in after.objects;
    } else {
      assert forall i :: 0 <= i < |s.rows| ==> HasRow(s.rows, s.rows[i].id);
    }
  }

  ghost predicate AlwaysPresent(c: Config, s: State, es: seq<Event>)
    decreases |es|
  {
    ObjectsPresent(s) && (es != [] ==> AlwaysPresent(c, Step(c, s, es[0]), es[1..]))
  }

  predicate NeverOrphans(c: Config, s: State, es: seq<Event>)
    decreases |es|
  {
    es != [] ==> !Orphans(s, es[0]) && NeverOrphans(c, Step(c, s, es[0]), es[1..])
  }

  /** Throughout an interleaving every row has its object, or a deletion under way accounts for it,
      exactly when no step of those kinds occurs. */
  lemma {:induction false} RunPresentIff(c: Config, s: State, es: seq<Event>)
    requires ObjectsPresent(s) && UploadsApart(s)
    ensures AlwaysPresent(c, s, es) <==> NeverOrphans(c, s, es)
    decreases |es|
  {
    if es != [] {
      ObjectsPresentIff(c, s, es[0]);
      StepKeepsUploadsApart(c, s, es[0]);
      if ObjectsPresent(Step(c, s, es[0])) {
        RunPresentIff(c, Step(c, s, es[0]), es[1..]);
      }
    }
  }

  /** Every ordinary deletion passes through a moment at which its committed row has no object, and
      ends with neither. */
  lemma DeletionPassesGap(c: Config, s: State, session: Id, id: Id)
    requires session !in s.deletions && HasRow(s.rows, id)
    ensures var gap := Step(c, Step(c, s, BeginDelete(session, id)), CallStorage(session, false, true));
            && HasRow(gap.rows, id) && id !in gap.objects
            && var end := Step(c, gap, EndDelete(session, Committed));
               !HasRow(end.rows, id) && id !in end.objects && end.deletions == s.deletions
  {
    FewerRows(s.rows, id);
    assert s.deletions[session := Deletion(id, false)][session := Deletion(id, true)] - {session} == s.deletions;
  }
}
