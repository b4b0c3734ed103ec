/** One workspace whose requests overlap: role changes, transfers, removals and departures each read
    the memberships, decide, and write later. Nothing is locked in between; a write goes to the very
    rows that were read, touches only the values that differ, and fails when a row it updates is gone. */
module OwnershipRaces {
  import opened Common
  import opened Membership

  /** A membership row; a member who is removed and joins again has a new one. */
  datatype Row = Row(id: nat, role: Role)

  /** What a handler carries from its read to its write. */
  datatype Read =
    | ForRole(target: Id, row: nat, role: Role, previous: Role)
    | ForTransfer(actor: Id, actorRow: nat, target: Id, targetRow: nat, ownerWas: Id, targetWas: Role)
    | ForDeparture(target: Id, row: nat)

  /** A handler in flight, and how many transfers had been committed when it read. */
  datatype Flight = Flight(read: Read, stamp: nat)

  datatype System = System(owner: Id, members: map<Id, Row>, nextRow: nat, flights: map<Id, Flight>, transfers: nat)

  /** Joining is one step: the row is inserted under the UNIQUE constraint, never as an owner. */
  datatype Event =
    | Join(user: Id, role: Role)
    | BeginRole(handler: Id, actor: Id, target: Id, role: Role)
    | BeginTransfer(handler: Id, actor: Id, target: Id)
    | BeginRemoval(handler: Id, actor: Id, target: Id)
    | BeginLeave(handler: Id, user: Id)
    | Finish(handler: Id)

  function Founded(founder: Id): System {
    System(founder, map[founder := Row(0, Owner)], 1, map[], 0)
  }

  function Fly(s: System, handler: Id, read: Read): System {
    s.(flights := s.flights[handler := Flight(read, s.transfers)])
  }

  /** The member is there, in that row. */
  predicate HasRow(s: System, user: Id, row: nat) {
    user in s.members && s.members[user].id == row
  }

  /** The checks of the four handlers on what they read; None refuses. */
  function Checked(s: System, e: Event): Option<Read> {
    match e
    case BeginRole(_, actor, target, role) =>
      if actor in s.members && target in s.members
         && CanManageMember(s.members[actor].role, s.members[target].role, Some(role))
      then Some(ForRole(target, s.members[target].id, role, s.members[target].role)) else None
    case BeginRemoval(_, actor, target) =>
      if actor in s.members && target in s.members
          && CanManageMember(s.members[actor].role, s.members[target].role, None)
      then Some(ForDeparture(target, s.members[target].id)) else None
    case BeginLeave(_, user) =>
      if user in s.members && s.members[user].role != Owner then Some(ForDeparture(user, s.members[user].id)) else None
    case BeginTransfer(_, actor, target) =>
      if actor in s.members && s.members[actor].role == Owner && target != actor && target in s.members
      then Some(ForTransfer(actor, s.members[actor].id, target, s.members[target].id, s.owner, s.members[target].role))
      else None
    case _ => None
  }

  /** The write: only what differs from the read, all of it or nothing. */
  function Write(s: System, read: Read): System {
    match read
    case ForRole(target, row, role, previous) =>
      if previous == role || !HasRow(s, target, row) then s else s.(members := s.members[target := Row(row, role)])
    case ForDeparture(target, row) =>
      if !HasRow(s, target, row) then s else s.(members := s.members - {target})
    case ForTransfer(actor, actorRow, target, targetRow, ownerWas, targetWas) =>
      if !HasRow(s, actor, actorRow) || (targetWas != Owner && !HasRow(s, target, targetRow)) then s
      else
        var demoted := s.members[actor := Row(actorRow, Admin)];
        System(if ownerWas != target then target else s.owner,
               if targetWas != Owner then demoted[target := Row(targetRow, Owner)] else demoted,
               s.nextRow, s.flights, s.transfers + 1)
  }

  function Step(s: System, e: Event): System {
    match e
    case Join(user, role) =>
      if user in s.members || role == Owner then s
      else s.(members := s.members[user := Row(s.nextRow, role)], nextRow := s.nextRow + 1)
    case Finish(h) =>
      if h !in s.flights then s else Write(s.(flights := s.flights - {h}), s.flights[h].read)
    case _ =>
      var read := Checked(s, e);
      if e.handler in s.flights || read == None then s else Fly(s, e.handler, read.value)
  }

  function Run(s: System, es: seq<Event>): System
    decreases |es|
  {
    if es == [] then s else Run(Step(s, es[0]), es[1..])
  }

  // ---------------------------------------------------------------- one owner

  /** Exactly one membership is an owner's, that of owner_id. */
  ghost predicate Owned(s: System) {
    && s.owner in s.members && s.members[s.owner].role == Owner
    && forall u :: u in s.members && s.members[u].role == Owner ==> u == s.owner
  }

  /** What a handler that read an owned workspace knows; if no transfer has been committed since,
      the owner it read is still the owner. */
  ghost predicate Sane(s: System, f: Flight) {
    && f.stamp <= s.transfers
    && match f.read
       case ForRole(target, _, role, previous) =>
         role != Owner && previous != Owner && (f.stamp == s.transfers ==> target != s.owner)
       case ForDeparture(target, _) => f.stamp == s.transfers ==> target != s.owner
       case ForTransfer(actor, _, target, _, ownerWas, targetWas) =>
         ownerWas == actor != target && targetWas != Owner && (f.stamp == s.transfers ==> actor == s.owner)
  }

  ghost predicate Good(s: System) {
    Owned(s) && forall h :: h in s.flights ==> Sane(s, s.flights[h])
  }

  /** The write would take the role or the row of the present owner, or would make a second owner
      because the ownership it hands over has gone to somebody else. A write to a row that has been
      deleted since, even if its member has joined again, is never unsafe. */
  predicate Unsafe(s: System, read: Read) {
    match read
    case ForRole(target, row, role, previous) => HasRow(s, target, row) && target == s.owner && role != previous
    case ForDeparture(target, row) => HasRow(s, target, row) && target == s.owner
    case ForTransfer(actor, actorRow, target, targetRow, _, _) =>
      HasRow(s, actor, actorRow) && HasRow(s, target, targetRow) && s.owner != actor && s.owner != target
  }

  predicate UnsafeFinish(s: System, e: Event) {
    e.Finish? && e.handler in s.flights && Unsafe(s, s.flights[e.handler].read)
  }

  lemma WriteOwnedIff(s: System, f: Flight)
    requires Owned(s) && Sane(s, f)
    ensures Owned(Write(s, f.read)) <==> !Unsafe(s, f.read)
  {
    var after := Write(s, f.read);
    if f.read.ForTransfer? && Unsafe(s, f.read) {
      assert s.owner in after.members && after.members[s.owner].role == Owner;
    }
  }

  /** A write keeps what the other handlers know: owner_id changes only together with the count. */
  lemma WriteKeepsSane(s: System, f: Flight, g: Flight)
    requires Sane(s, f) && Sane(s, g)
    ensures Sane(Write(s, f.read), g)
  {
  }

  /** One event leaves an owned workspace owned exactly when it is not an unsafe write. */
  lemma StepOwnedIff(s: System, e: Event)
    requires Good(s)
    ensures Owned(Step(s, e)) <==> !UnsafeFinish(s, e)
    ensures Owned(Step(s, e)) ==> Good(Step(s, e))
  {
    if e.Finish? {
      if e.handler in s.flights {
        var f, rest := s.flights[e.handler], s.(flights := s.flights - {e.handler});
        WriteOwnedIff(rest, f);
        forall h | h in rest.flights
          ensures Sane(Write(rest, f.read), rest.flights[h])
        {
          WriteKeepsSane(rest, f, rest.flights[h]);
        }
      }
    } else {
      BeginKeepsGood(s, e);
    }
  }

  lemma BeginKeepsGood(s: System, e: Event)
    requires Good(s) && !e.Finish?
    ensures Good(Step(s, e))
  {
    if !e.Join? && Checked(s, e).Some? {
      assert Sane(s, Flight(Checked(s, e).value, s.transfers));
    }
  }

  ghost predicate AlwaysOwned(s: System, es: seq<Event>)
    decreases |es|
  {
    Owned(s) && (es != [] ==> AlwaysOwned(Step(s, es[0]), es[1..]))
  }

  predicate NeverUnsafe(s: System, es: seq<Event>)
    decreases |es|
  {
    es != [] ==> !UnsafeFinish(s, es[0]) && NeverUnsafe(Step(s, es[0]), es[1..])
  }

  /** Over any interleaving the workspace has exactly one owner membership, that of owner_id,
      throughout exactly when no request in it is written unsafely. */
  lemma {:induction false} RunOwnedIff(s: System, es: seq<Event>)
    requires Good(s)
    ensures AlwaysOwned(s, es) <==> NeverUnsafe(s, es)
    decreases |es|
  {
    if es != [] {
      StepOwnedIff(s, es[0]);
      if Owned(Step(s, es[0])) {
        RunOwnedIff(Step(s, es[0]), es[1..]);
      }
    }
  }

  // ---------------------------------------------------------------- transfers are to blame

  /** The handler writes after a transfer that was committed since it read. */
  predicate Overtaken(s: System, e: Event) {
    e.Finish? && e.handler in s.flights && s.flights[e.handler].stamp != s.transfers
  }

  predicate NeverOvertaken(s: System, es: seq<Event>)
    decreases |es|
  {
    es != [] ==> !Overtaken(s, es[0]) && NeverOvertaken(Step(s, es[0]), es[1..])
  }

  /** If no request straddles a transfer of ownership the workspace is always properly owned: two
      role changes, removals or departures never harm each other. */
  lemma {:induction false} OnlyTransfersHarm(s: System, es: seq<Event>)
    requires Good(s) && NeverOvertaken(s, es)
    ensures AlwaysOwned(s, es)
    decreases |es|
  {
    if es != [] {
      assert UnsafeFinish(s, es[0]) ==> Sane(s, s.flights[es[0].handler]);
      StepOwnedIff(s, es[0]);
      OnlyTransfersHarm(Step(s, es[0]), es[1..]);
    }
  }

  // ---------------------------------------------------------------- a request that nothing disturbs

  /** The system is workspace w of the directory, which is neither archived nor closed to guests. */
  ghost predicate Shows(s: System, w: Id, m: State) {
    && w in m.owners && m.owners[w] == s.owner && w !in m.archived && w !in m.guestsDisabled
    && (forall u :: u in s.members <==> (w, u) in m.members)
    && forall u :: u in s.members ==> s.members[u].role == m.members[(w, u)]
  }

  /** The request that a handler begins. */
  function Requested(e: Event, w: Id): Option<Command> {
    match e
    case BeginRole(_, actor, target, role) => Some(ChangeRole(actor, w, target, role))
    case BeginRemoval(_, actor, target) => Some(RemoveMember(actor, w, target))
    case BeginLeave(_, user) => Some(Leave(user, w))
    case BeginTransfer(_, actor, target) => Some(Transfer(actor, w, target))
    case _ => None
  }

  /** Read and written with nothing in between, a request does to roles and ownership what the
      directory does, is refused exactly when the directory refuses it, and leaves the handlers in
      flight alone. */
  lemma UndisturbedRefines(s: System, w: Id, m: State, e: Event)
    requires Shows(s, w, m) && Requested(e, w).Some? && e.handler !in s.flights
    ensures var end, (after, reply) := Run(s, [e, Finish(e.handler)]), Membership.Step(m, Requested(e, w).value);
            && Shows(end, w, after) && end.flights == s.flights
            && (Checked(s, e).Some? <==> reply == Done)
  {
    RunTwo(s, e, Finish(e.handler));
    CheckedIffDone(s, w, m, e);
    if Checked(s, e).Some? {
      assert Step(s, e).flights - {e.handler} == s.flights;
      WriteRefines(s, w, m, e);
    } else {
      RefusalChangesNothing(m, Requested(e, w).value);
    }
  }

  lemma CheckedIffDone(s: System, w: Id, m: State, e: Event)
    requires Shows(s, w, m) && Requested(e, w).Some?
    ensures Checked(s, e).Some? <==> Membership.Step(m, Requested(e, w).value).1 == Done
  {
  }

  lemma WriteRefines(s: System, w: Id, m: State, e: Event)
    requires Shows(s, w, m) && Requested(e, w).Some? && Checked(s, e).Some?
    ensures Shows(Write(s, Checked(s, e).value), w, Membership.Step(m, Requested(e, w).value).0)
  {
    CheckedIffDone(s, w, m, e);
    match e
    case BeginRole(_, actor, target, role) => RoleRefines(s, w, m, target, role);
    case BeginTransfer(_, actor, target) => TransferRefines(s, w, m, actor, target);
    case BeginRemoval(_, _, target) => DepartureRefines(s, w, m, target);
    case BeginLeave(_, user) => DepartureRefines(s, w, m, user);
  }

  lemma RoleRefines(s: System, w: Id, m: State, target: Id, role: Role)
    requires Shows(s, w, m) && target in s.members
    ensures Shows(Write(s, ForRole(target, s.members[target].id, role, s.members[target].role)), w,
                  m.(members := m.members[(w, target) := role]))
  {
  }

  lemma DepartureRefines(s: System, w: Id, m: State, target: Id)
    requires Shows(s, w, m) && target in s.members
    ensures Shows(Write(s, ForDeparture(target, s.members[target].id)), w, WithoutMember(m, w, target))
  {
  }

  lemma TransferRefines(s: System, w: Id, m: State, actor: Id, target: Id)
    requires Shows(s, w, m) && actor in s.members && target in s.members && actor != target
    ensures Shows(
              Write(s, ForTransfer(actor, s.members[actor].id, target, s.members[target].id, s.owner,
                                   s.members[target].role)),
              w, m.(owners := m.owners[w := target], members := m.members[(w, actor) := Admin][(w, target) := Owner]))
  {
  }

  /** The write is for the very row of this member. */
  predicate Concerns(read: Read, user: Id, row: nat) {
    match read
    case ForRole(target, targetRow, _, _) => target == user && targetRow == row
    case ForDeparture(target, targetRow) => target == user && targetRow == row
    case ForTransfer(actor, actorRow, target, targetRow, _, _) =>
      (actor == user && actorRow == row) || (target == user && targetRow == row)
  }

  /** However late it comes, a write leaves every row alone that it has not read - also the new row of
      a member who has left and joined again -, lets nobody in, and finishing one request leaves the
      others in flight. */
  lemma FinishTouchesOnlyRowsRead(s: System, h: Id)
    requires h in s.flights
    ensures var after := Step(s, Finish(h));
            && after.flights == s.flights - {h} && after.members.Keys <= s.members.Keys
            && forall u :: u in s.members && !Concerns(s.flights[h].read, u, s.members[u].id) ==>
                 u in after.members && after.members[u] == s.members[u]
  {
  }

  // ---------------------------------------------------------------- without an owner

  /** Nobody is an owner, and no transfer begun earlier is still to be written. */
  ghost predicate Ownerless(s: System) {
    && (forall u :: u in s.members ==> s.members[u].role != Owner)
    && (forall h :: h in s.flights ==> !s.flights[h].read.ForTransfer?)
    && (forall h :: h in s.flights && s.flights[h].read.ForRole? ==> s.flights[h].read.role != Owner)
  }

  /** A workspace that has lost its owner never gets one again, whatever is requested. */
  lemma {:induction false} OwnerlessForever(s: System, es: seq<Event>)
    requires Ownerless(s)
    ensures Ownerless(Run(s, es))
    decreases |es|
  {
    if es != [] {
      OwnerlessStep(s, es[0]);
      OwnerlessForever(Step(s, es[0]), es[1..]);
    }
  }

  lemma OwnerlessStep(s: System, e: Event)
    requires Ownerless(s)
    ensures Ownerless(Step(s, e))
  {
  }

  lemma RunSplits(s: System, a: seq<Event>, b: seq<Event>)
    ensures Run(s, a + b) == Run(Run(s, a), b)
    decreases |a|
  {
    if a == [] {
      assert a + b == b;
    } else {
      assert (a + b)[1..] == a[1..] + b;
      RunSplits(Step(s, a[0]), a[1..], b);
    }
  }

  lemma RunTwo(s: System, a: Event, b: Event)
    ensures Run(s, [a, b]) == Step(Step(s, a), b)
  {
    assert [a, b][1..] == [b] && [b][1..] == [];
    assert Run(Step(s, a), [b]) == Run(Step(Step(s, a), b), []);
  }

  lemma ThreeParts(s: System, a: seq<Event>, b: seq<Event>, c: seq<Event>)
    ensures Run(s, a + b + c) == Run(Run(Run(s, a), b), c)
  {
    RunSplits(s, a + b, c);
    RunSplits(s, a, b);
  }

  /** A founder in row 0 and one member in row 1. */
  function Pair(founder: Id, first: Role, heir: Id, second: Role): map<Id, Row> {
    map[founder := Row(0, first), heir := Row(1, second)]
  }

  function Demotion(heir: Id): Flight {
    Flight(ForRole(heir, 1, Guest, Member), 0)
  }

  lemma RoleChangeDecided(founder: Id, heir: Id)
    requires founder != heir
    ensures Run(Founded(founder), [Join(heir, Member), BeginRole(0, founder, heir, Guest)])
            == System(founder, Pair(founder, Owner, heir, Member), 2, map[0 := Demotion(heir)], 0)
  {
    RunTwo(Founded(founder), Join(heir, Member), BeginRole(0, founder, heir, Guest));
  }

  lemma HandedOver(founder: Id, heir: Id)
    requires founder != heir
    ensures Run(System(founder, Pair(founder, Owner, heir, Member), 2, map[0 := Demotion(heir)], 0),
                [BeginTransfer(1, founder, heir), Finish(1)])
            == System(heir, Pair(founder, Admin, heir, Owner), 2, map[0 := Demotion(heir)], 1)
  {
    var s := System(founder, Pair(founder, Owner, heir, Member), 2, map[0 := Demotion(heir)], 0);
    var read := ForTransfer(founder, 0, heir, 1, founder, Member);
    RunTwo(s, BeginTransfer(1, founder, heir), Finish(1));
    assert Step(s, BeginTransfer(1, founder, heir)) == Fly(s, 1, read);
    assert s.flights[1 := Flight(read, 0)] - {1} == s.flights;
    assert s.members[founder := Row(0, Admin)][heir := Row(1, Owner)] == Pair(founder, Admin, heir, Owner);
  }

  lemma RoleChangeWritten(founder: Id, heir: Id)
    requires founder != heir
    ensures Run(System(heir, Pair(founder, Admin, heir, Owner), 2, map[0 := Demotion(heir)], 1), [Finish(0)])
            == System(heir, Pair(founder, Admin, heir, Guest), 2, map[], 1)
  {
    var s := System(heir, Pair(founder, Admin, heir, Owner), 2, map[0 := Demotion(heir)], 1);
    assert s.flights - {0} == map[];
    assert s.members[heir := Row(1, Guest)] == Pair(founder, Admin, heir, Guest);
    assert Run(s, [Finish(0)]) == Run(Step(s, Finish(0)), []);
  }

  /** The founder decides to make a member a guest, hands the workspace to that member, and only then
      the role change is written: no owner is left, and whatever comes after there never is one. */
  lemma RoleChangeLosesOwner(founder: Id, heir: Id, more: seq<Event>)
    requires founder != heir
    ensures var es := [Join(heir, Member), BeginRole(0, founder, heir, Guest)]
                      + [BeginTransfer(1, founder, heir), Finish(1)] + [Finish(0)];
            && Run(Founded(founder), es) == System(heir, Pair(founder, Admin, heir, Guest), 2, map[], 1)
            && Ownerless(Run(Run(Founded(founder), es), more))
  {
    RoleChangeDecided(founder, heir);
    HandedOver(founder, heir);
    RoleChangeWritten(founder, heir);
    ThreeParts(Founded(founder), [Join(heir, Member), BeginRole(0, founder, heir, Guest)],
               [BeginTransfer(1, founder, heir), Finish(1)], [Finish(0)]);
    OwnerlessForever(System(heir, Pair(founder, Admin, heir, Guest), 2, map[], 1), more);
  }

  /** A founder in row 0 and two members in rows 1 and 2. */
  function Trio(founder: Id, first: Role, a: Id, b: Id, others: Role): map<Id, Row> {
    map[founder := Row(0, first), a := Row(1, others), b := Row(2, others)]
  }

  function Handover(founder: Id, to: Id, row: nat): Flight {
    Flight(ForTransfer(founder, 0, to, row, founder, Member), 0)
  }

  lemma BothJoin(founder: Id, a: Id, b: Id)
    requires founder != a && founder != b && a != b
    ensures Run(Founded(founder), [Join(a, Member), Join(b, Member)])
            == System(founder, Trio(founder, Owner, a, b, Member), 3, map[], 0)
  {
    RunTwo(Founded(founder), Join(a, Member), Join(b, Member));
  }

  lemma BothDecided(founder: Id, a: Id, b: Id)
    requires founder != a && founder != b && a != b
    ensures Run(System(founder, Trio(founder, Owner, a, b, Member), 3, map[], 0),
                [BeginTransfer(0, founder, a), BeginTransfer(1, founder, b)])
            == System(founder, Trio(founder, Owner, a, b, Member), 3,
                      map[0 := Handover(founder, a, 1), 1 := Handover(founder, b, 2)], 0)
  {
    RunTwo(System(founder, Trio(founder, Owner, a, b, Member), 3, map[], 0),
           BeginTransfer(0, founder, a), BeginTransfer(1, founder, b));
  }

  lemma BothWritten(founder: Id, a: Id, b: Id)
    requires founder != a && founder != b && a != b
    ensures Run(System(founder, Trio(founder, Owner, a, b, Member), 3,
                       map[0 := Handover(founder, a, 1), 1 := Handover(founder, b, 2)], 0),
                [Finish(0), Finish(1)])
            == System(b, Trio(founder, Admin, a, b, Owner), 3, map[], 2)
  {
    var s := System(founder, Trio(founder, Owner, a, b, Member), 3,
                    map[0 := Handover(founder, a, 1), 1 := Handover(founder, b, 2)], 0);
    RunTwo(s, Finish(0), Finish(1));
    assert s.flights - {0} - {1} == map[];
    assert s.members[founder := Row(0, Admin)][a := Row(1, Owner)][founder := Row(0, Admin)][b := Row(2, Owner)]
           == Trio(founder, Admin, a, b, Owner);
  }

  /** Two transfers decided together make two owners. */
  lemma TransfersMakeTwoOwners(founder: Id, a: Id, b: Id)
    requires founder != a && founder != b && a != b
    ensures Run(Founded(founder), [Join(a, Member), Join(b, Member)]
                                  + [BeginTransfer(0, founder, a), BeginTransfer(1, founder, b)]
                                      + [Finish(0), Finish(1)])
            == System(b, Trio(founder, Admin, a, b, Owner), 3, map[], 2)
  {
    BothJoin(founder, a, b);
    BothDecided(founder, a, b);
    BothWritten(founder, a, b);
    ThreeParts(Founded(founder), [Join(a, Member), Join(b, Member)],
               [BeginTransfer(0, founder, a), BeginTransfer(1, founder, b)], [Finish(0), Finish(1)]);
  }
}
