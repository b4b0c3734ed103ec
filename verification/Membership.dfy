/** Workspaces, their members and owners, project memberships and invitations. */
module Membership {
  import opened Common

  datatype Role = Owner | Admin | Member | Guest

  datatype Project = Project(workspace: Id, owner: Id)

  /** An invitation is addressed to the account that holds its e-mail address. */
  datatype Invitation = Invitation(workspace: Id, invitee: Id, role: Role, expiresAt: int, accepted: bool)

  /** Memberships are keyed by their UNIQUE pair of ids. */
  datatype State = State(
    owners: map<Id, Id>,
    archived: set<Id>,
    guestsDisabled: set<Id>,
    members: map<(Id, Id), Role>,
    projects: map<Id, Project>,
    projectMembers: map<(Id, Id), Role>,
    invitations: map<Id, Invitation>)

  datatype Command =
    | CreateWorkspace(w: Id, user: Id)
    | DeleteWorkspace(actor: Id, w: Id)
    | ArchiveWorkspace(actor: Id, w: Id)
    | RestoreWorkspace(actor: Id, w: Id)
    | ChangeRole(actor: Id, w: Id, target: Id, role: Role)
    | RemoveMember(actor: Id, w: Id, target: Id)
    | Leave(user: Id, w: Id)
    | Transfer(actor: Id, w: Id, target: Id)
    | Invite(actor: Id, w: Id, invitation: Id, invitee: Id, role: Role, expiresAt: int, now: int)
    | Accept(user: Id, invitation: Id, now: int)
    | Cancel(actor: Id, w: Id, invitation: Id)
    | Reject(user: Id, invitation: Id, now: int)
    | SetGuests(actor: Id, w: Id, enabled: bool)
    | CreateProject(actor: Id, w: Id, p: Id)
    | AddProjectMember(actor: Id, p: Id, target: Id, role: Role)
    | RemoveProjectMember(actor: Id, p: Id, target: Id)

  datatype Reply = Done | NotFound | Forbidden | Conflict | Invalid

  // ---------------------------------------------------------------- who may do what

  predicate CanInviteRole(actor: Role, requested: Role) {
    match actor
    case Owner => requested != Owner
    case Admin => requested == Member || requested == Guest
    case _ => false
  }

  /** Whether the actor may give the target the requested role, or remove it (None). */
  predicate CanManageMember(actor: Role, target: Role, requested: Option<Role>) {
    if target == Owner then false
    else
      match actor
      case Owner => requested != Some(Owner)
      case Admin => target != Admin && requested != Some(Owner) && requested != Some(Admin)
      case _ => false
  }

  /** Members strictly below the actor, and roles strictly below the actor's own. */
  function Rank(role: Role): nat {
    match role case Owner => 3 case Admin => 2 case Member => 1 case Guest => 0
  }

  lemma ManageIffOutranks(actor: Role, target: Role, requested: Option<Role>)
    ensures CanManageMember(actor, target, requested) <==>
      Rank(actor) >= 2 && Rank(actor) > Rank(target) && (requested.Some? ==> Rank(actor) > Rank(requested.value))
    ensures CanInviteRole(actor, target) <==> CanManageMember(actor, target, Some(target))
  {
  }

  /** What require_workspace decides: None lets the request through. */
  function Refused(s: State, w: Id, user: Id, allowed: set<Role>, allowArchived: bool): Option<Reply> {
    if (w, user) !in s.members || s.members[(w, user)] !in allowed then Some(Forbidden)
    else if !allowArchived && w in s.archived then Some(Conflict)
    else None
  }

  const ANYONE: set<Role> := {Owner, Admin, Member, Guest}
  const WRITERS: set<Role> := {Owner, Admin, Member}
  const MANAGERS: set<Role> := {Owner, Admin}

  /** Access to a project together with the right to manage it. */
  function ManageRefused(s: State, p: Id, user: Id): Option<Reply> {
    if p !in s.projects then Some(NotFound)
    else
      var w := s.projects[p].workspace;
      var refused := Refused(s, w, user, ANYONE, false);
      if refused.Some? then refused
      else if s.members[(w, user)] == Guest && (p, user) !in s.projectMembers then Some(Forbidden)
      else if s.projects[p].owner != user && s.members[(w, user)] !in MANAGERS then Some(Forbidden)
      else None
  }

  // ---------------------------------------------------------------- requests

  function WithoutProjectMemberships(s: State, w: Id, user: Id): map<(Id, Id), Role> {
    map k | k in s.projectMembers && !(k.1 == user && k.0 in s.projects && s.projects[k.0].workspace == w) ::
        s.projectMembers[k]
  }

  function WithoutMember(s: State, w: Id, user: Id): State {
    s.(projectMembers := WithoutProjectMemberships(s, w, user), members := s.members - {(w, user)})
  }

  /** Deleting a workspace cascades to everything in it. */
  function WithoutWorkspace(s: State, w: Id): State {
    State(s.owners - {w}, s.archived - {w}, s.guestsDisabled - {w},
          map k | k in s.members && k.0 != w :: s.members[k],
          map p | p in s.projects && s.projects[p].workspace != w :: s.projects[p],
          map k | k in s.projectMembers && !(k.0 in s.projects && s.projects[k.0].workspace == w) ::
              s.projectMembers[k],
          map i | i in s.invitations && s.invitations[i].workspace != w :: s.invitations[i])
  }

  /** What stands in the way of answering an invitation: it is used up, expired or on hold, or it
      was sent to somebody else. */
  function AnswerRefused(s: State, user: Id, id: Id, now: int): Option<Reply> {
    if id !in s.invitations || s.invitations[id].accepted || s.invitations[id].expiresAt <= now then Some(NotFound)
    else
      var i := s.invitations[id];
      if i.workspace in s.archived || (i.role == Guest && i.workspace in s.guestsDisabled) then Some(Conflict)
      else if i.invitee != user then Some(Forbidden)
      else None
  }

  /** Archiving a workspace drops the invitations nobody has accepted. */
  function OpenInvitationsDropped(s: State, w: Id): map<Id, Invitation> {
    map i | i in s.invitations && (s.invitations[i].workspace != w || s.invitations[i].accepted) :: s.invitations[i]
  }

  function Step(s: State, c: Command): (State, Reply) {
    match c
    case CreateWorkspace(w, user) =>
      if w in s.owners then (s, Conflict)
      else (s.(owners := s.owners[w := user], members := s.members[(w, user) := Owner]), Done)
    case DeleteWorkspace(actor, w) =>
      var refused := Refused(s, w, actor, {Owner}, true);
      if refused.Some? then (s, refused.value) else (WithoutWorkspace(s, w), Done)
    case ArchiveWorkspace(actor, w) =>
      var refused := Refused(s, w, actor, {Owner}, false);
      if refused.Some? then (s, refused.value)
      else (s.(archived := s.archived + {w}, invitations := OpenInvitationsDropped(s, w)), Done)
    case RestoreWorkspace(actor, w) =>
      var refused := Refused(s, w, actor, {Owner}, true);
      if refused.Some? then (s, refused.value) else (s.(archived := s.archived - {w}), Done)
    case ChangeRole(actor, w, target, role) =>
      var refused := Refused(s, w, actor, MANAGERS, false);
      if refused.Some? then (s, refused.value)
      else if (w, target) !in s.members then (s, NotFound)
      else if !CanManageMember(s.members[(w, actor)], s.members[(w, target)], Some(role)) then (s, Forbidden)
      else if role == Guest && w in s.guestsDisabled then (s, Conflict)
      else (s.(members := s.members[(w, target) := role]), Done)
    case RemoveMember(actor, w, target) =>
      var refused := Refused(s, w, actor, MANAGERS, false);
      if refused.Some? then (s, refused.value)
      else if (w, target) !in s.members then (s, NotFound)
      else if !CanManageMember(s.members[(w, actor)], s.members[(w, target)], None) then (s, Forbidden)
      else (WithoutMember(s, w, target), Done)
    case Leave(user, w) =>
      var refused := Refused(s, w, user, ANYONE, true);
      if refused.Some? then (s, refused.value)
      else if s.members[(w, user)] == Owner then (s, Conflict)
      else (WithoutMember(s, w, user), Done)
    case Transfer(actor, w, target) =>
      var refused := Refused(s, w, actor, {Owner}, false);
      if refused.Some? then (s, refused.value)
      else if target == actor then (s, Conflict)
      else if (w, target) !in s.members then (s, NotFound)
      else (s.(owners := s.owners[w := target], members := s.members[(w, actor) := Admin][(w, target) := Owner]), Done)
    case Invite(actor, w, id, invitee, role, expiresAt, now) =>
      var refused := Refused(s, w, actor, MANAGERS, false);
      if refused.Some? then (s, refused.value)
      else if !CanInviteRole(s.members[(w, actor)], role) then (s, Forbidden)
      else if (role == Guest && w in s.guestsDisabled) || (w, invitee) in s.members || id in s.invitations
              || (exists i :: i in s.invitations && s.invitations[i].workspace == w
                              && s.invitations[i].invitee == invitee
                              && !s.invitations[i].accepted && s.invitations[i].expiresAt > now)
      then (s, Conflict)
      else (s.(invitations := s.invitations[id := Invitation(w, invitee, role, expiresAt, false)]), Done)
    case Accept(user, id, now) =>
      var refused := AnswerRefused(s, user, id, now);
      if refused.Some? then (s, refused.value)
      else
        var i := s.invitations[id];
        (s.(members := if (i.workspace, user) in s.members then s.members else s.members[(i.workspace, user) := i.role],
            invitations := s.invitations[id := i.(accepted := true)]), Done)
    case Cancel(actor, w, id) =>
      var refused := Refused(s, w, actor, MANAGERS, false);
      if refused.Some? then (s, refused.value)
      else if id !in s.invitations || s.invitations[id].workspace != w then (s, NotFound)
      else if s.invitations[id].accepted then (s, Conflict)
      else if !CanInviteRole(s.members[(w, actor)], s.invitations[id].role) then (s, Forbidden)
      else (s.(invitations := s.invitations - {id}), Done)
    case Reject(user, id, now) =>
      var refused := AnswerRefused(s, user, id, now);
      if refused.Some? then (s, refused.value) else (s.(invitations := s.invitations - {id}), Done)
    case SetGuests(actor, w, enabled) =>
      var refused := Refused(s, w, actor, MANAGERS, false);
      if refused.Some? then (s, refused.value)
      else (s.(guestsDisabled := if enabled then s.guestsDisabled - {w} else s.guestsDisabled + {w}), Done)
    case CreateProject(actor, w, p) =>
      var refused := Refused(s, w, actor, WRITERS, false);
      if refused.Some? then (s, refused.value)
      else if p in s.projects then (s, Conflict)
      else
        (s.(projects := s.projects[p := Project(w, actor)], projectMembers := s.projectMembers[(p, actor) := Owner]),
         Done)
    case AddProjectMember(actor, p, target, role) =>
      var refused := ManageRefused(s, p, actor);
      if refused.Some? then (s, refused.value)
      else if (s.projects[p].workspace, target) !in s.members then (s, Invalid)
      else
        var given := if target == s.projects[p].owner then Owner else role;
        (s.(projectMembers := s.projectMembers[(p, target) := given]), Done)
    case RemoveProjectMember(actor, p, target) =>
      var refused := ManageRefused(s, p, actor);
      if refused.Some? then (s, refused.value)
      else if target == s.projects[p].owner then (s, Conflict)
      else if (p, target) !in s.projectMembers then (s, NotFound)
      else (s.(projectMembers := s.projectMembers - {(p, target)}), Done)
  }

  function Run(s: State, cs: seq<Command>): State
    decreases |cs|
  {
    if cs == [] then s else Run(Step(s, cs[0]).0, cs[1..])
  }

  // ---------------------------------------------------------------- the invariant

  /** Each workspace has exactly one owner membership and it belongs to its owner_id; members,
      projects and invitations belong to existing workspaces; project members are members of the
      project's workspace; nobody is ever invited to own a workspace. */
  ghost predicate Valid(s: State) {
    && (forall w :: w in s.owners ==> (w, s.owners[w]) in s.members && s.members[(w, s.owners[w])] == Owner)
    && (forall k :: k in s.members ==> k.0 in s.owners && (s.members[k] == Owner ==> k.1 == s.owners[k.0]))
    && (forall p :: p in s.projects ==> s.projects[p].workspace in s.owners)
    && (forall k :: k in s.projectMembers ==> k.0 in s.projects && (s.projects[k.0].workspace, k.1) in s.members)
    && (forall i :: i in s.invitations ==> s.invitations[i].workspace in s.owners && s.invitations[i].role != Owner)
  }

  // ---------------------------------------------------------------- what every request keeps

  /** Everything that belongs to one workspace. */
  datatype Tenant = Tenant(
    owner: Option<Id>,
    archived: bool,
    guestsDisabled: bool,
    members: map<(Id, Id), Role>,
    projects: map<Id, Project>,
    projectMembers: map<(Id, Id), Role>,
    invitations: map<Id, Invitation>)

  function Of(s: State, w: Id): Tenant {
    Tenant(if w in s.owners then Some(s.owners[w]) else None, w in s.archived, w in s.guestsDisabled,
           map k | k in s.members && k.0 == w :: s.members[k],
           map p | p in s.projects && s.projects[p].workspace == w :: s.projects[p],
           map k | k in s.projectMembers && k.0 in s.projects && s.projects[k.0].workspace == w :: s.projectMembers[k],
           map i | i in s.invitations && s.invitations[i].workspace == w :: s.invitations[i])
  }

  /** The request is about workspace w. */
  predicate About(s: State, c: Command, w: Id) {
    match c
    case Accept(_, id, _) => id in s.invitations && s.invitations[id].workspace == w
    case Reject(_, id, _) => id in s.invitations && s.invitations[id].workspace == w
    case AddProjectMember(_, p, _, _) => p in s.projects && s.projects[p].workspace == w
    case RemoveProjectMember(_, p, _) => p in s.projects && s.projects[p].workspace == w
    case _ => c.w == w
  }

  /** The invariant is kept, nothing of any other workspace changes, and a refusal changes nothing. */
  ghost predicate Sound(before: State, c: Command, after: State, reply: Reply) {
    && (Valid(before) ==> Valid(after) && forall w :: !About(before, c, w) ==> Of(after, w) == Of(before, w))
    && (reply != Done ==> after == before)
  }

  // ---------------------------------------------------------------- the handlers

  class Directory {
    var owners: map<Id, Id>
    var archived: set<Id>
    var guestsDisabled: set<Id>
    var members: map<(Id, Id), Role>
    var projects: map<Id, Project>
    var projectMembers: map<(Id, Id), Role>
    var invitations: map<Id, Invitation>

    ghost function Value(): State
      reads this
    {
      State(owners, archived, guestsDisabled, members, projects, projectMembers, invitations)
    }

    constructor ()
      ensures Value() == EMPTY
    {
      owners, archived, guestsDisabled, members := map[], {}, {}, map[];
      projects, projectMembers, invitations := map[], map[], map[];
    }

    method RequireWorkspace(w: Id, user: Id, allowed: set<Role>, allowArchived: bool) returns (refused: Option<Reply>)
      ensures refused == Refused(Value(), w, user, allowed, allowArchived)
    {
      if (w, user) !in members || members[(w, user)] !in allowed {
        return Some(Forbidden);
      }
      if !allowArchived && w in archived {
        return Some(Conflict);
      }
      return None;
    }

    method RequireManage(p: Id, user: Id) returns (refused: Option<Reply>)
      ensures refused == ManageRefused(Value(), p, user)
    {
      if p !in projects {
        return Some(NotFound);
      }
      var w := projects[p].workspace;
      refused := RequireWorkspace(w, user, ANYONE, false);
      if refused.Some? {
        return;
      }
      if members[(w, user)] == Guest && (p, user) !in projectMembers {
        return Some(Forbidden);
      }
      if projects[p].owner != user && members[(w, user)] !in MANAGERS {
        return Some(Forbidden);
      }
      return None;
    }

    method UpdateRole(actor: Id, w: Id, target: Id, role: Role) returns (reply: Reply)
      modifies this
      ensures (Value(), reply) == Step(old(Value()), Command.ChangeRole(actor, w, target, role))
      ensures Sound(old(Value()), Command.ChangeRole(actor, w, target, role), Value(), reply)
    {
      StepIsSound(Value(), Command.ChangeRole(actor, w, target, role));
      var refused := RequireWorkspace(w, actor, MANAGERS, false);
      if refused.Some? {
        return refused.value;
      }
      if (w, target) !in members {
        return NotFound;
      }
      if !CanManageMember(members[(w, actor)], members[(w, target)], Some(role)) {
        return Forbidden;
      }
      if role == Guest && w in guestsDisabled {
        return Conflict;
      }
      members := members[(w, target) := role];
      return Done;
    }

    /** Removes the user's memberships of the workspace's projects, and nothing else. */
    method CleanupProjectMemberships(w: Id, user: Id)
      modifies this`projectMembers
      ensures projectMembers == WithoutProjectMemberships(old(Value()), w, user)
      ensures forall k :: k in old(projectMembers) ==>
        (k in projectMembers <==> k.1 != user || k.0 !in projects || projects[k.0].workspace != w)
    {
      var projectIds := set p | p in projects && projects[p].workspace == w;
      var rest := set k | k in projectMembers && k.1 == user && k.0 in projectIds;
      projectMembers := projectMembers - rest;
    }

    method Remove(actor: Id, w: Id, target: Id) returns (reply: Reply)
      modifies this
      ensures (Value(), reply) == Step(old(Value()), Command.RemoveMember(actor, w, target))
      ensures Sound(old(Value()), Command.RemoveMember(actor, w, target), Value(), reply)
    {
      StepIsSound(Value(), Command.RemoveMember(actor, w, target));
      var refused := RequireWorkspace(w, actor, MANAGERS, false);
      if refused.Some? {
        return refused.value;
      }
      if (w, target) !in members {
        return NotFound;
      }
      if !CanManageMember(members[(w, actor)], members[(w, target)], None) {
        return Forbidden;
      }
      CleanupProjectMemberships(w, target);
      members := members - {(w, target)};
      return Done;
    }

    method LeaveWorkspace(user: Id, w: Id) returns (reply: Reply)
      modifies this
      ensures (Value(), reply) == Step(old(Value()), Command.Leave(user, w))
      ensures Sound(old(Value()), Command.Leave(user, w), Value(), reply)
    {
      StepIsSound(Value(), Command.Leave(user, w));
      var refused := RequireWorkspace(w, user, ANYONE, true);
      if refused.Some? {
        return refused.value;
      }
      if members[(w, user)] == Owner {
        return Conflict;
      }
      CleanupProjectMemberships(w, user);
      members := members - {(w, user)};
      return Done;
    }

    method TransferOwnership(actor: Id, w: Id, target: Id) returns (reply: Reply)
      modifies this
      ensures (Value(), reply) == Step(old(Value()), Command.Transfer(actor, w, target))
      ensures Sound(old(Value()), Command.Transfer(actor, w, target), Value(), reply)
    {
      StepIsSound(Value(), Command.Transfer(actor, w, target));
      var refused := RequireWorkspace(w, actor, {Owner}, false);
      if refused.Some? {
        return refused.value;
      }
      if target == actor {
        return Conflict;
      }
      if (w, target) !in members {
        return NotFound;
      }
      owners := owners[w := target];
      members := members[(w, actor) := Admin];
      members := members[(w, target) := Owner];
      return Done;
    }

    method CreateInvitation(actor: Id, w: Id, id: Id, invitee: Id, role: Role, expiresAt: int, now: int)
        returns (reply: Reply)
      modifies this
      ensures (Value(), reply) == Step(old(Value()), Command.Invite(actor, w, id, invitee, role, expiresAt, now))
      ensures Sound(old(Value()), Command.Invite(actor, w, id, invitee, role, expiresAt, now), Value(), reply)
    {
      StepIsSound(Value(), Command.Invite(actor, w, id, invitee, role, expiresAt, now));
      var refused := RequireWorkspace(w, actor, MANAGERS, false);
      if refused.Some? {
        return refused.value;
      }
      if !CanInviteRole(members[(w, actor)], role) {
        return Forbidden;
      }
      if role == Guest && w in guestsDisabled {
        return Conflict;
      }
      if (w, invitee) in members || id in invitations {
        return Conflict;
      }
      if exists i :: i in invitations && invitations[i].workspace == w && invitations[i].invitee == invitee
                     && !invitations[i].accepted && invitations[i].expiresAt > now {
        return Conflict;
      }
      invitations := invitations[id := Invitation(w, invitee, role, expiresAt, false)];
      return Done;
    }

    method InvitationFromToken(user: Id, id: Id, now: int) returns (refused: Option<Reply>)
      ensures refused == AnswerRefused(Value(), user, id, now)
    {
      if id !in invitations || invitations[id].accepted || invitations[id].expiresAt <= now {
        return Some(NotFound);
      }
      var i := invitations[id];
      if i.workspace in archived || (i.role == Guest && i.workspace in guestsDisabled) {
        return Some(Conflict);
      }
      if i.invitee != user {
        return Some(Forbidden);
      }
      return None;
    }

    method AcceptInvitation(user: Id, id: Id, now: int) returns (reply: Reply)
      modifies this
      ensures (Value(), reply) == Step(old(Value()), Command.Accept(user, id, now))
      ensures Sound(old(Value()), Command.Accept(user, id, now), Value(), reply)
    {
      StepIsSound(Value(), Command.Accept(user, id, now));
      var refused := InvitationFromToken(user, id, now);
      if refused.Some? {
        return refused.value;
      }
      var i := invitations[id];
      if (i.workspace, user) !in members {
        members := members[(i.workspace, user) := i.role];
      }
      invitations := invitations[id := i.(accepted := true)];
      return Done;
    }

    method NewWorkspace(w: Id, user: Id) returns (reply: Reply)
      modifies this
      ensures (Value(), reply) == Step(old(Value()), Command.CreateWorkspace(w, user))
      ensures Sound(old(Value()), Command.CreateWorkspace(w, user), Value(), reply)
    {
      StepIsSound(Value(), Command.CreateWorkspace(w, user));
      if w in owners {
        return Conflict;
      }
      owners := owners[w := user];
      members := members[(w, user) := Owner];
      return Done;
    }

    method NewProject(actor: Id, w: Id, p: Id) returns (reply: Reply)
      modifies this
      ensures (Value(), reply) == Step(old(Value()), Command.CreateProject(actor, w, p))
      ensures Sound(old(Value()), Command.CreateProject(actor, w, p), Value(), reply)
    {
      StepIsSound(Value(), Command.CreateProject(actor, w, p));
      var refused := RequireWorkspace(w, actor, WRITERS, false);
      if refused.Some? {
        return refused.value;
      }
      if p in projects {
        return Conflict;
      }
      projects := projects[p := Project(w, actor)];
      projectMembers := projectMembers[(p, actor) := Owner];
      return Done;
    }

    method PutProjectMember(actor: Id, p: Id, target: Id, role: Role) returns (reply: Reply)
      modifies this
      ensures (Value(), reply) == Step(old(Value()), Command.AddProjectMember(actor, p, target, role))
      ensures Sound(old(Value()), Command.AddProjectMember(actor, p, target, role), Value(), reply)
    {
      StepIsSound(Value(), Command.AddProjectMember(actor, p, target, role));
      var refused := RequireManage(p, actor);
      if refused.Some? {
        return refused.value;
      }
      if (projects[p].workspace, target) !in members {
        return Invalid;
      }
      projectMembers := projectMembers[(p, target) := if target == projects[p].owner then Owner else role];
      return Done;
    }

    method DropProjectMember(actor: Id, p: Id, target: Id) returns (reply: Reply)
      modifies this
      ensures (Value(), reply) == Step(old(Value()), Command.RemoveProjectMember(actor, p, target))
      ensures Sound(old(Value()), Command.RemoveProjectMember(actor, p, target), Value(), reply)
    {
      StepIsSound(Value(), Command.RemoveProjectMember(actor, p, target));
      var refused := RequireManage(p, actor);
      if refused.Some? {
        return refused.value;
      }
      if target == projects[p].owner {
        return Conflict;
      }
      if (p, target) !in projectMembers {
        return NotFound;
      }
      projectMembers := projectMembers - {(p, target)};
      return Done;
    }
  }

  const EMPTY := State(map[], {}, {}, map[], map[], map[], map[])

  lemma WithoutWorkspaceValid(s: State, w: Id)
    requires Valid(s)
    ensures Valid(WithoutWorkspace(s, w))
  {
  }

  lemma WithoutMemberValid(s: State, w: Id, user: Id)
    requires Valid(s) && w in s.owners && user != s.owners[w]
    ensures Valid(WithoutMember(s, w, user))
  {
  }

  lemma ChangeRoleKeepsValid(s: State, c: Command)
    requires Valid(s) && c.ChangeRole?
    ensures Valid(Step(s, c).0)
  {
  }

  lemma TransferKeepsValid(s: State, c: Command)
    requires Valid(s) && c.Transfer?
    ensures Valid(Step(s, c).0)
  {
  }

  lemma AcceptKeepsValid(s: State, c: Command)
    requires Valid(s) && c.Accept?
    ensures Valid(Step(s, c).0)
  {
  }

  lemma CreateKeepsValid(s: State, c: Command)
    requires Valid(s) && (c.CreateWorkspace? || c.CreateProject?)
    ensures Valid(Step(s, c).0)
  {
  }

  lemma ProjectMemberKeepsValid(s: State, c: Command)
    requires Valid(s) && (c.AddProjectMember? || c.RemoveProjectMember?)
    ensures Valid(Step(s, c).0)
  {
  }

  lemma InviteKeepsValid(s: State, c: Command)
    requires Valid(s) && c.Invite?
    ensures Valid(Step(s, c).0)
  {
  }

  lemma WithdrawalKeepsValid(s: State, c: Command)
    requires Valid(s) && (c.Cancel? || c.Reject?)
    ensures Valid(Step(s, c).0)
  {
  }

  lemma SettingStepKeepsValid(s: State, c: Command)
    requires Valid(s) && (c.SetGuests? || c.ArchiveWorkspace? || c.RestoreWorkspace?)
    ensures Valid(Step(s, c).0)
  {
  }

  lemma StepKeepsValid(s: State, c: Command)
    requires Valid(s)
    ensures Valid(Step(s, c).0)
  {
    match c
    case DeleteWorkspace(_, w) => WithoutWorkspaceValid(s, w);
    case RemoveMember(_, w, target) =>
      if Step(s, c).1 == Done { WithoutMemberValid(s, w, target); }
    case Leave(user, w) =>
      if Step(s, c).1 == Done { WithoutMemberValid(s, w, user); }
    case ChangeRole(_, _, _, _) => ChangeRoleKeepsValid(s, c);
    case Transfer(_, _, _) => TransferKeepsValid(s, c);
    case Accept(_, _, _) => AcceptKeepsValid(s, c);
    case CreateWorkspace(_, _) => CreateKeepsValid(s, c);
    case CreateProject(_, _, _) => CreateKeepsValid(s, c);
    case AddProjectMember(_, _, _, _) => ProjectMemberKeepsValid(s, c);
    case RemoveProjectMember(_, _, _) => ProjectMemberKeepsValid(s, c);
    case SetGuests(_, _, _) => SettingStepKeepsValid(s, c);
    case ArchiveWorkspace(_, _) => SettingStepKeepsValid(s, c);
    case RestoreWorkspace(_, _) => SettingStepKeepsValid(s, c);
    case Invite(_, _, _, _, _, _, _) => InviteKeepsValid(s, c);
    case _ => WithdrawalKeepsValid(s, c);
  }

  ghost predicate SameMembers(s: State, s': State, w: Id) {
    && (w in s.owners <==> w in s'.owners) && (w in s.owners ==> s'.owners[w] == s.owners[w])
    && (w in s.archived <==> w in s'.archived) && (w in s.guestsDisabled <==> w in s'.guestsDisabled)
    && (forall k :: k in s.members && k.0 == w ==> k in s'.members && s'.members[k] == s.members[k])
    && (forall k :: k in s'.members && k.0 == w ==> k in s.members)
  }

  ghost predicate SameProjects(s: State, s': State, w: Id) {
    && (forall p :: p in s.projects && s.projects[p].workspace == w ==>
        p in s'.projects && s'.projects[p] == s.projects[p])
    && (forall p :: p in s'.projects && s'.projects[p].workspace == w ==>
        p in s.projects && s.projects[p] == s'.projects[p])
    && (forall k :: k in s.projectMembers && k.0 in s.projects && s.projects[k.0].workspace == w ==>
          k in s'.projectMembers && s'.projectMembers[k] == s.projectMembers[k])
    && (forall k :: k in s'.projectMembers && k.0 in s'.projects && s'.projects[k.0].workspace == w ==>
        k in s.projectMembers)
  }

  ghost predicate SameInvitations(s: State, s': State, w: Id) {
    && (forall i :: i in s.invitations && s.invitations[i].workspace == w ==>
          i in s'.invitations && s'.invitations[i] == s.invitations[i])
    && (forall i :: i in s'.invitations && s'.invitations[i].workspace == w ==>
          i in s.invitations && s.invitations[i] == s'.invitations[i])
  }

  lemma SameParts(s: State, s': State, w: Id)
    requires SameMembers(s, s', w) && SameProjects(s, s', w) && SameInvitations(s, s', w)
    ensures Of(s', w) == Of(s, w)
  {
    var a, b := Of(s, w), Of(s', w);
    assert a.members == b.members && a.invitations == b.invitations;
    assert a.projects == b.projects && a.projectMembers == b.projectMembers;
  }

  lemma DeparturesStayInside(s: State, w0: Id, user: Id, w: Id)
    requires Valid(s) && w != w0
    ensures SameMembers(s, WithoutMember(s, w0, user), w) && SameProjects(s, WithoutMember(s, w0, user), w)
  {
  }

  lemma DeletionsStayInside(s: State, w0: Id, w: Id)
    requires Valid(s) && w != w0
    ensures SameMembers(s, WithoutWorkspace(s, w0), w) && SameProjects(s, WithoutWorkspace(s, w0), w)
    ensures SameInvitations(s, WithoutWorkspace(s, w0), w)
  {
  }

  predicate Departure(c: Command) {
    c.RemoveMember? || c.Leave? || c.DeleteWorkspace?
  }

  lemma MembersStay(s: State, c: Command, w: Id)
    requires !About(s, c, w) && !Departure(c)
    ensures SameMembers(s, Step(s, c).0, w)
  {
    if c.ChangeRole? || c.Transfer? {
      RolesStayInside(s, c, w);
    } else if c.CreateWorkspace? || c.Accept? {
      NewcomersStayInside(s, c, w);
    } else {
      MembersUntouched(s, c);
    }
  }

  lemma RolesStayInside(s: State, c: Command, w: Id)
    requires (c.ChangeRole? || c.Transfer?) && c.w != w
    ensures SameMembers(s, Step(s, c).0, w)
  {
  }

  lemma NewcomersStayInside(s: State, c: Command, w: Id)
    requires (c.CreateWorkspace? || c.Accept?) && !About(s, c, w)
    ensures SameMembers(s, Step(s, c).0, w)
  {
  }

  lemma MembersUntouched(s: State, c: Command)
    requires !Departure(c) && !c.ChangeRole? && !c.Transfer? && !c.CreateWorkspace? && !c.Accept?
    ensures Step(s, c).0.members == s.members && Step(s, c).0.owners == s.owners
  {
  }

  lemma CreationStaysInside(s: State, c: Command, w: Id)
    requires c.CreateProject? && c.w != w
    ensures SameProjects(s, Step(s, c).0, w)
  {
  }

  lemma ProjectMembersStay(s: State, c: Command, w: Id)
    requires !About(s, c, w) && (c.AddProjectMember? || c.RemoveProjectMember?)
    ensures SameProjects(s, Step(s, c).0, w)
  {
    assert Step(s, c).0.projects == s.projects;
  }

  lemma ProjectsUntouched(s: State, c: Command)
    requires !Departure(c) && !c.CreateProject? && !c.AddProjectMember? && !c.RemoveProjectMember?
    ensures Step(s, c).0.projects == s.projects && Step(s, c).0.projectMembers == s.projectMembers
  {
  }

  lemma InvitationsStay(s: State, c: Command, w: Id)
    requires !About(s, c, w) && !Departure(c)
    ensures SameInvitations(s, Step(s, c).0, w)
  {
  }

  lemma DepartureStaysInside(s: State, w0: Id, user: Id, w: Id)
    requires Valid(s) && w0 != w
    ensures Of(WithoutMember(s, w0, user), w) == Of(s, w)
  {
    DeparturesStayInside(s, w0, user, w);
    SameParts(s, WithoutMember(s, w0, user), w);
  }

  lemma DepartureRequestsStayInside(s: State, c: Command, w: Id)
    requires Valid(s) && !About(s, c, w) && Departure(c) && Step(s, c).1 == Done
    ensures Of(Step(s, c).0, w) == Of(s, w)
  {
    match c
    case DeleteWorkspace(_, w0) =>
      DeletionsStayInside(s, w0, w);
      SameParts(s, WithoutWorkspace(s, w0), w);
    case RemoveMember(_, w0, target) => DepartureStaysInside(s, w0, target, w);
    case Leave(user, w0) => DepartureStaysInside(s, w0, user, w);
    case _ =>
  }

  lemma OtherRequestsStayInside(s: State, c: Command, w: Id)
    requires Valid(s) && !About(s, c, w) && !Departure(c)
    ensures Of(Step(s, c).0, w) == Of(s, w)
  {
    MembersStay(s, c, w);
    InvitationsStay(s, c, w);
    if c.CreateProject? {
      CreationStaysInside(s, c, w);
    } else if c.AddProjectMember? || c.RemoveProjectMember? {
      ProjectMembersStay(s, c, w);
    } else {
      ProjectsUntouched(s, c);
    }
    SameParts(s, Step(s, c).0, w);
  }

  /** A request changes nothing of any workspace but the one it is about. */
  lemma RequestsStayInside(s: State, c: Command, w: Id)
    requires Valid(s) && !About(s, c, w)
    ensures Of(Step(s, c).0, w) == Of(s, w)
  {
    if Step(s, c).1 != Done {
      RefusalChangesNothing(s, c);
    } else if Departure(c) {
      DepartureRequestsStayInside(s, c, w);
    } else {
      OtherRequestsStayInside(s, c, w);
    }
  }

  lemma StepIsSound(s: State, c: Command)
    ensures Sound(s, c, Step(s, c).0, Step(s, c).1)
  {
    if Valid(s) {
      StepKeepsValid(s, c);
      forall w | !About(s, c, w)
        ensures Of(Step(s, c).0, w) == Of(s, w)
      {
        RequestsStayInside(s, c, w);
      }
    }
    if Step(s, c).1 != Done {
      RefusalChangesNothing(s, c);
    }
  }

  lemma RefusalChangesNothing(s: State, c: Command)
    requires Step(s, c).1 != Done
    ensures Step(s, c).0 == s
  {
  }

  /** The invariant holds in every run. */
  lemma {:induction false} RunKeepsValid(s: State, cs: seq<Command>)
    requires Valid(s)
    ensures Valid(Run(s, cs))
    decreases |cs|
  {
    if cs != [] {
      StepKeepsValid(s, cs[0]);
      RunKeepsValid(Step(s, cs[0]).0, cs[1..]);
    }
  }

  predicate NeverAbout(s: State, cs: seq<Command>, w: Id)
    decreases |cs|
  {
    cs != [] ==> !About(s, cs[0], w) && NeverAbout(Step(s, cs[0]).0, cs[1..], w)
  }

  /** Whatever is requested elsewhere, a workspace stays as it is. */
  lemma {:induction false} WorkspacesIsolated(s: State, cs: seq<Command>, w: Id)
    requires Valid(s) && NeverAbout(s, cs, w)
    ensures Of(Run(s, cs), w) == Of(s, w)
    decreases |cs|
  {
    if cs != [] {
      StepKeepsValid(s, cs[0]);
      RequestsStayInside(s, cs[0], w);
      WorkspacesIsolated(Step(s, cs[0]).0, cs[1..], w);
    }
  }

  /** Exactly one member of a workspace holds the owner role. */
  lemma ExactlyOneOwner(cs: seq<Command>, w: Id)
    requires w in Run(EMPTY, cs).owners
    ensures var s := Run(EMPTY, cs);
            (set k | k in s.members && k.0 == w && s.members[k] == Owner) == {(w, s.owners[w])}
  {
    RunKeepsValid(EMPTY, cs);
  }

  /** A workspace changes hands only by a transfer that its owner makes, to a member. */
  lemma OwnershipMovesOnlyByTransfer(s: State, c: Command, w: Id)
    requires Valid(s) && w in s.owners && w in Step(s, c).0.owners && Step(s, c).0.owners[w] != s.owners[w]
    ensures c.Transfer? && c.w == w && c.actor == s.owners[w] && c.target == Step(s, c).0.owners[w]
            && (w, c.target) in s.members
  {
    if !c.Transfer? {
      OthersKeepOwnerIds(s, c, w);
    }
  }

  lemma OthersKeepOwnerIds(s: State, c: Command, w: Id)
    requires !c.Transfer? && w in s.owners && w in Step(s, c).0.owners
    ensures Step(s, c).0.owners[w] == s.owners[w]
  {
  }

  /** Only four requests ever raise or add a member. */
  lemma OtherRequestsRaiseNobody(s: State, c: Command, k: (Id, Id))
    requires !c.ChangeRole? && !c.Transfer? && !c.CreateWorkspace? && !c.Accept?
    requires k in Step(s, c).0.members
    ensures k in s.members && Step(s, c).0.members[k] == s.members[k]
  {
  }

  /** Nobody gains rank in a workspace except from someone who outranked them, from an owner's
      transfer, by founding it, or by accepting an invitation as a newcomer. */
  lemma RankRisesOnlyByOutranking(s: State, c: Command, w: Id, user: Id)
    requires Valid(s) && (w, user) in Step(s, c).0.members
    requires (w, user) !in s.members || Rank(Step(s, c).0.members[(w, user)]) > Rank(s.members[(w, user)])
    ensures if (w, user) in s.members
            then (c.ChangeRole? || c.Transfer?) && c.w == w && c.target == user && (w, c.actor) in s.members
                 && Rank(s.members[(w, c.actor)]) > Rank(s.members[(w, user)])
                 && (c.ChangeRole? ==> Rank(Step(s, c).0.members[(w, user)]) < Rank(s.members[(w, c.actor)]))
            else
              || (c.CreateWorkspace? && c.w == w && c.user == user && w !in s.owners)
              || (c.Accept? && c.user == user && c.invitation in s.invitations
                  && var i := s.invitations[c.invitation];
                     && i.workspace == w && i.invitee == user && !i.accepted && c.now < i.expiresAt
                     && Step(s, c).0.members[(w, user)] == i.role)
  {
    if c.Transfer? {
      TransferShifts(s, c, w, user);
    } else if c.ChangeRole? {
      ChangeRoleShifts(s, c, w, user);
    } else if !c.CreateWorkspace? && !c.Accept? {
      OtherRequestsRaiseNobody(s, c, (w, user));
    }
  }

  lemma TransferShifts(s: State, c: Command, w: Id, user: Id)
    requires Valid(s) && c.Transfer? && (w, user) in Step(s, c).0.members
    ensures (w, user) in s.members
    ensures var before, after := Rank(s.members[(w, user)]), Rank(Step(s, c).0.members[(w, user)]);
            && (after > before ==>
                  c.w == w && c.target == user && (w, c.actor) in s.members && Rank(s.members[(w, c.actor)]) > before)
            && (after < before ==> c.w == w && c.actor == user == s.owners[w])
  {
  }

  lemma ChangeRoleShifts(s: State, c: Command, w: Id, user: Id)
    requires Valid(s) && c.ChangeRole? && (w, user) in Step(s, c).0.members
    ensures (w, user) in s.members
    ensures Rank(Step(s, c).0.members[(w, user)]) != Rank(s.members[(w, user)]) ==>
      c.w == w && c.target == user && (w, c.actor) in s.members
          && Rank(s.members[(w, c.actor)]) > Rank(s.members[(w, user)])
  {
  }

  lemma InvitationsFromInvites(s: State, c: Command, id: Id)
    requires id in Step(s, c).0.invitations
    ensures var i := Step(s, c).0.invitations[id];
            if id in s.invitations
            then i == s.invitations[id].(accepted := i.accepted)
            else Vouches(s, c, id, i)
  {
  }

  /** The request is the invitation, by an owner or admin who outranks its role. */
  predicate Vouches(s: State, c: Command, id: Id, i: Invitation) {
    && c.Invite? && c.invitation == id && c.w == i.workspace && c.invitee == i.invitee && c.role == i.role
    && (i.workspace, c.actor) in s.members
    && Rank(s.members[(i.workspace, c.actor)]) >= 2 && Rank(s.members[(i.workspace, c.actor)]) > Rank(i.role)
  }

  lemma {:induction false} RunSnoc(s: State, cs: seq<Command>, c: Command)
    ensures Run(s, cs + [c]) == Step(Run(s, cs), c).0
    decreases |cs|
  {
    if cs == [] {
      assert [] + [c] == [c] && [c][1..] == [];
      assert Run(Step(s, c).0, []) == Step(s, c).0;
    } else {
      assert (cs + [c])[1..] == cs[1..] + [c];
      RunSnoc(Step(s, cs[0]).0, cs[1..], c);
    }
  }

  /** In every run from nothing, whatever role an invitation offers was offered by a member who
      outranked it at that moment. */
  lemma {:induction false} InvitationsVouched(cs: seq<Command>, id: Id) returns (n: nat)
    requires id in Run(EMPTY, cs).invitations
    ensures n < |cs| && Vouches(Run(EMPTY, cs[..n]), cs[n], id, Run(EMPTY, cs).invitations[id])
    decreases |cs|
  {
    assert cs != [];
    var init, last := cs[..|cs| - 1], cs[|cs| - 1];
    assert cs == init + [last];
    RunSnoc(EMPTY, init, last);
    var s := Run(EMPTY, init);
    InvitationsFromInvites(s, last, id);
    if id in s.invitations {
      n := InvitationsVouched(init, id);
      assert cs[..n] == init[..n];
    } else {
      n := |init|;
    }
  }

  /** Nobody loses rank or membership in a workspace except by leaving, by giving ownership away, at
      the hands of someone who outranked them, or with the whole workspace when its owner deletes it. */
  lemma RankFallsOnlyBy(s: State, c: Command, w: Id, user: Id)
    requires Valid(s) && (w, user) in s.members
    requires (w, user) in Step(s, c).0.members ==> Rank(Step(s, c).0.members[(w, user)]) < Rank(s.members[(w, user)])
    ensures
      || (c.Leave? && c.w == w && c.user == user && s.members[(w, user)] != Owner)
      || (c.Transfer? && c.w == w && c.actor == user == s.owners[w])
      || ((c.ChangeRole? || c.RemoveMember?) && c.w == w && c.target == user && (w, c.actor) in s.members
          && Rank(s.members[(w, c.actor)]) > Rank(s.members[(w, user)]))
      || (c.DeleteWorkspace? && c.w == w && c.actor == s.owners[w])
  {
    if !c.Leave? && !c.RemoveMember? && !c.DeleteWorkspace? {
      OthersKeepMembers(s, c);
      if c.Transfer? {
        TransferShifts(s, c, w, user);
      } else if c.ChangeRole? {
        ChangeRoleShifts(s, c, w, user);
      } else if c.Accept? || c.CreateWorkspace? {
        NewcomersLowerNobody(s, c, (w, user));
      } else {
        OtherRequestsRaiseNobody(s, c, (w, user));
      }
    }
  }

  lemma NewcomersLowerNobody(s: State, c: Command, k: (Id, Id))
    requires Valid(s) && k in s.members && (c.Accept? || c.CreateWorkspace?)
    ensures k in Step(s, c).0.members && Step(s, c).0.members[k] == s.members[k]
  {
  }

  // ---------------------------------------------------------------- what is carried out

  /** The user is a member of rank at least `rank`, and the workspace is not archived. */
  predicate Ranks(s: State, w: Id, user: Id, rank: nat) {
    (w, user) in s.members && Rank(s.members[(w, user)]) >= rank && w !in s.archived
  }

  /** The invitation can still be answered by the user at `now`. */
  predicate Answerable(s: State, user: Id, id: Id, now: int) {
    && id in s.invitations
    && var i := s.invitations[id];
       && !i.accepted && now < i.expiresAt && i.invitee == user && i.workspace !in s.archived
       && !(i.role == Guest && i.workspace in s.guestsDisabled)
  }

  /** The user may manage the project: its owner, or a workspace owner or admin, who can see it. */
  predicate Manages(s: State, p: Id, user: Id) {
    && p in s.projects
    && var w := s.projects[p].workspace;
       && Ranks(s, w, user, 0) && (Rank(s.members[(w, user)]) == 0 ==> (p, user) in s.projectMembers)
       && (s.projects[p].owner == user || Rank(s.members[(w, user)]) >= 2)
  }

  /** When each request about members and workspaces should go through. */
  predicate Allowed(s: State, c: Command) {
    match c
    case CreateWorkspace(w, _) => w !in s.owners
    case DeleteWorkspace(actor, w) => (w, actor) in s.members && Rank(s.members[(w, actor)]) == 3
    case ArchiveWorkspace(actor, w) => Ranks(s, w, actor, 3)
    case RestoreWorkspace(actor, w) => (w, actor) in s.members && Rank(s.members[(w, actor)]) == 3
    case ChangeRole(actor, w, target, role) =>
      && Ranks(s, w, actor, 2) && (w, target) in s.members && !(role == Guest && w in s.guestsDisabled)
      && Rank(s.members[(w, target)]) < Rank(s.members[(w, actor)]) && Rank(role) < Rank(s.members[(w, actor)])
    case RemoveMember(actor, w, target) =>
      Ranks(s, w, actor, 2) && (w, target) in s.members && Rank(s.members[(w, target)]) < Rank(s.members[(w, actor)])
    case Leave(user, w) => (w, user) in s.members && Rank(s.members[(w, user)]) < 3
    case Transfer(actor, w, target) => Ranks(s, w, actor, 3) && target != actor && (w, target) in s.members
    case Invite(actor, w, id, invitee, role, _, now) =>
      && Ranks(s, w, actor, 2) && Rank(role) < Rank(s.members[(w, actor)]) && !(role == Guest && w in s.guestsDisabled)
      && (w, invitee) !in s.members && id !in s.invitations
      && forall i :: i in s.invitations && s.invitations[i].workspace == w && s.invitations[i].invitee == invitee ==>
           s.invitations[i].accepted || s.invitations[i].expiresAt <= now
    case Accept(user, id, now) => Answerable(s, user, id, now)
    case Reject(user, id, now) => Answerable(s, user, id, now)
    case Cancel(actor, w, id) =>
      && Ranks(s, w, actor, 2) && id in s.invitations && s.invitations[id].workspace == w && !s.invitations[id].accepted
      && Rank(s.invitations[id].role) < Rank(s.members[(w, actor)])
    case SetGuests(actor, w, _) => Ranks(s, w, actor, 2)
    case CreateProject(actor, w, p) => Ranks(s, w, actor, 1) && p !in s.projects
    case AddProjectMember(actor, p, target, _) =>
      Manages(s, p, actor) && (s.projects[p].workspace, target) in s.members
    case RemoveProjectMember(actor, p, target) =>
      Manages(s, p, actor) && target != s.projects[p].owner && (p, target) in s.projectMembers
  }

  lemma MemberRequestsIff(s: State, c: Command)
    requires c.ChangeRole? || c.RemoveMember? || c.Leave? || c.Transfer? || c.CreateProject? || c.SetGuests?
    ensures Step(s, c).1 == Done <==> Allowed(s, c)
  {
  }

  lemma InvitationRequestsIff(s: State, c: Command)
    requires c.Invite? || c.Accept? || c.Reject? || c.Cancel?
    ensures Step(s, c).1 == Done <==> Allowed(s, c)
  {
  }

  lemma OtherRequestsIff(s: State, c: Command)
    requires !c.ChangeRole? && !c.RemoveMember? && !c.Leave? && !c.Transfer? && !c.CreateProject? && !c.SetGuests?
    requires !c.Invite? && !c.Accept? && !c.Reject? && !c.Cancel?
    ensures Step(s, c).1 == Done <==> Allowed(s, c)
  {
  }

  /** A request is carried out exactly when the ranks of those concerned, and the state of the
      workspace, the invitation or the project, allow it; otherwise nothing changes. */
  lemma CarriedOutIff(s: State, c: Command)
    ensures Step(s, c).1 == Done <==> Allowed(s, c)
    ensures !Allowed(s, c) ==> Step(s, c).0 == s
  {
    if c.ChangeRole? || c.RemoveMember? || c.Leave? || c.Transfer? || c.CreateProject? || c.SetGuests? {
      MemberRequestsIff(s, c);
    } else if c.Invite? || c.Accept? || c.Reject? || c.Cancel? {
      InvitationRequestsIff(s, c);
    } else {
      OtherRequestsIff(s, c);
    }
    if Step(s, c).1 != Done {
      RefusalChangesNothing(s, c);
    }
  }

  // ---------------------------------------------------------------- who holds which role

  function RoleOf<K(==)>(members: map<K, Role>, k: K): Option<Role> {
    if k in members then Some(members[k]) else None
  }

  /** The role in a workspace that a request, if carried out, gives a user who had `role`. */
  function Granted(s: State, c: Command, k: (Id, Id), role: Option<Role>): Option<Role> {
    match c
    case CreateWorkspace(w, user) => if k == (w, user) then Some(Owner) else role
    case DeleteWorkspace(_, w) => if k.0 == w then None else role
    case ChangeRole(_, w, target, requested) => if k == (w, target) then Some(requested) else role
    case RemoveMember(_, w, target) => if k == (w, target) then None else role
    case Leave(user, w) => if k == (w, user) then None else role
    case Transfer(actor, w, target) =>
      if k == (w, target) then Some(Owner) else if k == (w, actor) then Some(Admin) else role
    case Accept(user, id, _) =>
      if id in s.invitations && k == (s.invitations[id].workspace, user) && role == None
      then Some(s.invitations[id].role) else role
    case _ => role
  }

  /** The role in a project that a request, if carried out, gives a user who had `role`. */
  function GrantedInProject(s: State, c: Command, k: (Id, Id), role: Option<Role>): Option<Role> {
    match c
    case DeleteWorkspace(_, w) => if k.0 in s.projects && s.projects[k.0].workspace == w then None else role
    case RemoveMember(_, w, target) =>
      if k.1 == target && k.0 in s.projects && s.projects[k.0].workspace == w then None else role
    case Leave(user, w) =>
      if k.1 == user && k.0 in s.projects && s.projects[k.0].workspace == w then None else role
    case CreateProject(actor, _, p) => if k == (p, actor) then Some(Owner) else role
    case AddProjectMember(_, p, target, requested) =>
      if k != (p, target) then role
      else if p in s.projects && s.projects[p].owner == target then Some(Owner) else Some(requested)
    case RemoveProjectMember(_, p, target) => if k == (p, target) then None else role
    case _ => role
  }

  lemma RoleAfter(s: State, c: Command, k: (Id, Id))
    ensures var (after, reply) := Step(s, c);
            RoleOf(after.members, k)
            == if reply == Done then Granted(s, c, k, RoleOf(s.members, k)) else RoleOf(s.members, k)
  {
    if Step(s, c).1 != Done {
      RefusalChangesNothing(s, c);
    }
  }

  lemma ProjectRoleAfter(s: State, c: Command, k: (Id, Id))
    ensures var (after, reply) := Step(s, c);
            RoleOf(after.projectMembers, k)
            == if reply == Done then GrantedInProject(s, c, k, RoleOf(s.projectMembers, k))
                else RoleOf(s.projectMembers, k)
  {
    if Step(s, c).1 != Done {
      RefusalChangesNothing(s, c);
    }
  }

  /** What a request that is carried out makes of the owners and the guest settings. */
  lemma WorkspacesAfter(s: State, c: Command)
    requires Step(s, c).1 == Done
    ensures var after := Step(s, c).0;
            && after.owners == (if c.CreateWorkspace? then s.owners[c.w := c.user]
                                else if c.Transfer? then s.owners[c.w := c.target]
                                else if c.DeleteWorkspace? then s.owners - {c.w} else s.owners)
            && after.guestsDisabled == (if c.SetGuests? && !c.enabled then s.guestsDisabled + {c.w}
                                        else if c.SetGuests? || c.DeleteWorkspace? then s.guestsDisabled - {c.w}
                                        else s.guestsDisabled)
  {
  }

  /** Of the archive. */
  lemma ArchiveAfter(s: State, c: Command)
    requires Step(s, c).1 == Done
    ensures Step(s, c).0.archived == if c.ArchiveWorkspace? then s.archived + {c.w}
                                     else if c.RestoreWorkspace? || c.DeleteWorkspace? then s.archived - {c.w}
                                     else s.archived
  {
  }

  /** And of the projects. */
  lemma ProjectsAfter(s: State, c: Command)
    requires Step(s, c).1 == Done
    ensures var after := Step(s, c).0;
            && (!c.DeleteWorkspace? ==>
                  after.projects == if c.CreateProject? then s.projects[c.p := Project(c.w, c.actor)] else s.projects)
            && (c.DeleteWorkspace? ==> forall p ::
                  && (p in after.projects <==> p in s.projects && s.projects[p].workspace != c.w)
                  && (p in after.projects ==> after.projects[p] == s.projects[p]))
  {
  }

  /** An invitation is as it was sent until it is answered, cancelled or swept away: accepted, it is
      kept as used; in every other case it is gone. */
  lemma InvitationsAfter(s: State, c: Command, id: Id)
    requires Step(s, c).1 == Done
    ensures var after := Step(s, c).0.invitations;
            && (c.Invite? && c.invitation == id ==>
                  id in after && after[id] == Invitation(c.w, c.invitee, c.role, c.expiresAt, false))
            && (!(c.Invite? && c.invitation == id) ==>
                  && (id in after <==>
                        && id in s.invitations && !((c.Cancel? || c.Reject?) && c.invitation == id)
                        && !(c.ArchiveWorkspace? && s.invitations[id].workspace == c.w && !s.invitations[id].accepted)
                        && !(c.DeleteWorkspace? && s.invitations[id].workspace == c.w))
                  && (id in after ==>
                        var used := c.Accept? && c.invitation == id;
                        after[id] == s.invitations[id].(accepted := s.invitations[id].accepted || used)))
  {
  }

  /** The roles that the requests carried out in a run have given a user, one after another. */
  function LastGranted(s: State, cs: seq<Command>, k: (Id, Id), role: Option<Role>): Option<Role>
    decreases |cs|
  {
    if cs == [] then role
    else LastGranted(Step(s, cs[0]).0, cs[1..], k, if Allowed(s, cs[0]) then Granted(s, cs[0], k, role) else role)
  }

  function LastGrantedInProject(s: State, cs: seq<Command>, k: (Id, Id), role: Option<Role>): Option<Role>
    decreases |cs|
  {
    if cs == [] then role
    else
      LastGrantedInProject(Step(s, cs[0]).0, cs[1..], k,
                           if Allowed(s, cs[0]) then GrantedInProject(s, cs[0], k, role) else role)
  }

  /** After any run every role, in workspaces and in projects, is the one last granted, and nobody has
      a role that was not granted. */
  lemma {:induction false} RolesAreLastGranted(s: State, cs: seq<Command>, k: (Id, Id))
    ensures RoleOf(Run(s, cs).members, k) == LastGranted(s, cs, k, RoleOf(s.members, k))
    ensures RoleOf(Run(s, cs).projectMembers, k) == LastGrantedInProject(s, cs, k, RoleOf(s.projectMembers, k))
    decreases |cs|
  {
    if cs != [] {
      CarriedOutIff(s, cs[0]);
      RoleAfter(s, cs[0], k);
      ProjectRoleAfter(s, cs[0], k);
      RolesAreLastGranted(Step(s, cs[0]).0, cs[1..], k);
    }
  }

  // ---------------------------------------------------------------- project owners

  ghost predicate ProjectOwnersInside(s: State) {
    forall p :: p in s.projects ==> (s.projects[p].workspace, s.projects[p].owner) in s.members
  }

  predicate OwnsProjectIn(s: State, w: Id, user: Id) {
    exists p :: p in s.projects && s.projects[p].workspace == w && s.projects[p].owner == user
  }

  /** A member who owns a project leaves, or is removed by a manager who outranks them while the
      workspace is open. */
  predicate EvictsProjectOwner(s: State, c: Command) {
    match c
    case Leave(user, w) => (w, user) in s.members && s.members[(w, user)] != Owner && OwnsProjectIn(s, w, user)
    case RemoveMember(actor, w, target) =>
      && (w, actor) in s.members && (w, target) in s.members && w !in s.archived
      && Rank(s.members[(w, actor)]) >= 2 && Rank(s.members[(w, actor)]) > Rank(s.members[(w, target)])
      && OwnsProjectIn(s, w, target)
    case _ => false
  }

  /** Unlike workspaces, projects can outlive their owner's membership. One request keeps every
      project owner a member of the project's workspace exactly when it is not such a departure. */
  lemma ProjectOwnersStayIff(s: State, c: Command)
    requires Valid(s) && ProjectOwnersInside(s)
    ensures ProjectOwnersInside(Step(s, c).0) <==> !EvictsProjectOwner(s, c)
  {
    match c
    case Leave(user, w) =>
      if Step(s, c).1 == Done { DepartureIff(s, w, user); }
    case RemoveMember(actor, w, target) =>
      if Step(s, c).1 == Done { DepartureIff(s, w, target); }
    case _ => OthersKeepOwners(s, c);
  }

  lemma DepartureIff(s: State, w: Id, user: Id)
    requires ProjectOwnersInside(s) && (w, user) in s.members
    ensures ProjectOwnersInside(WithoutMember(s, w, user)) <==> !OwnsProjectIn(s, w, user)
  {
    var after := WithoutMember(s, w, user);
    assert after.projects == s.projects && after.members == s.members - {(w, user)};
  }

  lemma OthersKeepOwners(s: State, c: Command)
    requires Valid(s) && ProjectOwnersInside(s) && !c.RemoveMember? && !c.Leave?
    ensures ProjectOwnersInside(Step(s, c).0)
  {
    if c.DeleteWorkspace? {
      DeletionKeepsOwners(s, c.w);
    } else if c.CreateProject? {
      CreationKeepsOwners(s, c);
    } else {
      OthersKeepMembers(s, c);
    }
  }

  lemma DeletionKeepsOwners(s: State, w: Id)
    requires ProjectOwnersInside(s)
    ensures ProjectOwnersInside(WithoutWorkspace(s, w))
  {
  }

  lemma CreationKeepsOwners(s: State, c: Command)
    requires ProjectOwnersInside(s) && c.CreateProject?
    ensures ProjectOwnersInside(Step(s, c).0)
  {
  }

  /** Members go only by being removed, by leaving or with their workspace. */
  lemma OthersKeepMembers(s: State, c: Command)
    requires !c.DeleteWorkspace? && !c.RemoveMember? && !c.Leave?
    ensures s.members.Keys <= Step(s, c).0.members.Keys
    ensures c.CreateProject? || Step(s, c).0.projects == s.projects
  {
  }

  ghost predicate OwnersAlwaysInside(s: State, cs: seq<Command>)
    decreases |cs|
  {
    ProjectOwnersInside(s) && (cs != [] ==> OwnersAlwaysInside(Step(s, cs[0]).0, cs[1..]))
  }

  predicate NeverEvicts(s: State, cs: seq<Command>)
    decreases |cs|
  {
    cs != [] ==> !EvictsProjectOwner(s, cs[0]) && NeverEvicts(Step(s, cs[0]).0, cs[1..])
  }

  /** Throughout a run every project owner is a member of the project's workspace exactly when no
      request in it is such a departure. */
  lemma {:induction false} RunProjectOwnersIff(s: State, cs: seq<Command>)
    requires Valid(s) && ProjectOwnersInside(s)
    ensures OwnersAlwaysInside(s, cs) <==> NeverEvicts(s, cs)
    decreases |cs|
  {
    if cs != [] {
      StepKeepsValid(s, cs[0]);
      ProjectOwnersStayIff(s, cs[0]);
      if ProjectOwnersInside(Step(s, cs[0]).0) {
        RunProjectOwnersIff(Step(s, cs[0]).0, cs[1..]);
      }
    }
  }
}
