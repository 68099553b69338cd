/** The user and group handlers, run one after another: requests of non-admins
    leave the set of admins as it is (backend/internal/api/users.go and
    groups.go). */
module UserRequests {
  import opened Records
  import opened Machine
  import opened Commands
  import opened Invariants
  import opened Replica
  import opened Permissions

  const ALL_PERMISSIONS := {
    "flags:read", "flags:write", "flags:update", "flags:delete",
    "users:read", "users:create", "users:update", "users:delete",
    "groups:read", "groups:create", "groups:update", "groups:delete",
    "audits:read",
    "environments:read", "environments:create", "environments:update", "environments:delete",
    "applicationCredentials:read", "applicationCredentials:create",
    "applicationCredentials:update", "applicationCredentials:delete"}

  /** The payload's password: left out, hashed, or of a length that is refused. */
  datatype Password = NoPassword | Hashed(hash: Slice<Byte>) | BadPassword

  /** Requests with normalised names; `actor` is whom the token names. */
  datatype Request =
    | CreateUser(actor: Actor, newId: string, username: string, password: Password, groupIds: Slice<string>)
    | UpdateUser(actor: Actor, id: string, username: string, password: Password,
                 newGroupIds: Option<Slice<string>>, active: Option<bool>)
    | DeleteUser(actor: Actor, id: string)
    | CreateGroup(actor: Actor, newId: string, name: string, permissions: Slice<string>, environmentIds: Slice<string>)
    | UpdateGroup(actor: Actor, id: string, name: string, permissions: Slice<string>, environmentIds: Slice<string>)
    | DeleteGroup(actor: Actor, id: string)

  function PermissionFor(r: Request): string {
    match r
    case CreateUser(_, _, _, _, _) => "users:create"
    case UpdateUser(_, _, _, _, _, _) => "users:update"
    case DeleteUser(_, _) => "users:delete"
    case CreateGroup(_, _, _, _, _) => "groups:create"
    case UpdateGroup(_, _, _, _, _) => "groups:update"
    case DeleteGroup(_, _) => "groups:delete"
  }

  predicate TouchesAdmin(groupIds: Slice<string>) {
    ADMIN_GROUP_ID in groupIds.Elems()
  }

  predicate GroupsExist(s: State, groupIds: Slice<string>) {
    forall i :: 0 <= i < |groupIds.Elems()| ==> groupIds.Elems()[i] in s.groups
  }

  predicate ValidGroupPayload(s: State, name: string, permissions: Slice<string>, environmentIds: Slice<string>) {
    && name != ""
    && (forall i :: 0 <= i < |permissions.Elems()| ==> permissions.Elems()[i] in ALL_PERMISSIONS)
    && (forall i :: 0 <= i < |environmentIds.Elems()| ==> environmentIds.Elems()[i] in s.environments)
  }

  /** The command a handler commits for a caller with this access, if it gets
      that far. */
  function DecideFor(s: State, access: Access, r: Request): Option<Command> {
    match r
    case CreateUser(_, newId, username, password, groupIds) =>
      if username == "" || !password.Hashed? then None
      else if TouchesAdmin(groupIds) && !access.AllAccess? then None
      else if UsernameKnown(s, username) || !GroupsExist(s, groupIds) then None
      else Some(UserCommand(Set(User(newId, username, password.hash, groupIds, true, 0))))
    case UpdateUser(_, id, username, password, newGroupIds, active) =>
      if id !in s.users || username == "" || password.BadPassword? then None
      else
        var existing := s.users[id];
        var groupIds := if newGroupIds.Some? then newGroupIds.value else existing.groupIds;
        if (TouchesAdmin(existing.groupIds) || TouchesAdmin(groupIds)) && !access.AllAccess? then None
        else if UsernameTaken(s, username, id) || !GroupsExist(s, groupIds) then None
        else Some(UserCommand(Set(User(
               existing.id, username, if password.Hashed? then password.hash else existing.passwordHash, groupIds,
               if active.Some? then active.value else existing.active, 0))))
    case DeleteUser(_, id) =>
      if id !in s.users || !access.AllAccess? then None else Some(UserCommand(Delete(id)))
    case CreateGroup(_, newId, name, permissions, environmentIds) =>
      if !ValidGroupPayload(s, name, permissions, environmentIds) then None
      else Some(GroupCommand(Set(Group(newId, name, permissions, environmentIds, false, 0))))
    case UpdateGroup(_, id, name, permissions, environmentIds) =>
      if id !in s.groups || !ValidGroupPayload(s, name, permissions, environmentIds) then None
      else Some(GroupCommand(Set(Group(s.groups[id].id, name, permissions, environmentIds, false, 0))))
    case DeleteGroup(_, id) =>
      if id !in s.groups then None else Some(GroupCommand(Delete(id)))
  }

  /** requirePermission and then the handler, with the caller's access resolved
      from the state of that moment. */
  ghost function Decide(s: State, r: Request): Option<Command> {
    match ResolveActor(s, r.actor)
    case None => None
    case Some(access) => if access.Has(PermissionFor(r)) then DecideFor(s, access, r) else None
  }

  ghost function Handle(s: State, index: nat, r: Request): State {
    match Decide(s, r)
    case None => s
    case Some(c) => Step(s, Entry(index, c)).state
  }

  ghost function HandleAll(s: State, last: nat, requests: seq<Request>): State {
    if requests == [] then s
    else Handle(HandleAll(s, last, requests[..|requests| - 1]), last + |requests|, requests[|requests| - 1])
  }

  lemma NoRequests(s: State, last: nat)
    ensures HandleAll(s, last, []) == s
  {
  }

  lemma OneMoreRequest(s: State, last: nat, requests: seq<Request>, r: Request, longer: seq<Request>)
    requires longer == requests + [r]
    ensures HandleAll(s, last, longer) == Handle(HandleAll(s, last, requests), last + |longer|, r)
  {
    hide Handle;
    assert longer[..|longer| - 1] == requests;
  }

  // ----- the handler code -----

  /** requireAdminForAdminGroupChange */
  method AdminChangeAllowed(access: Access, groupSets: seq<Slice<string>>) returns (allowed: bool)
    ensures allowed <==> access.AllAccess? || forall i :: 0 <= i < |groupSets| ==> !TouchesAdmin(groupSets[i])
  {
    var touchesAdmin := false;
    for i := 0 to |groupSets|
      invariant !touchesAdmin && forall j :: 0 <= j < i ==> !TouchesAdmin(groupSets[j])
    {
      if TouchesAdmin(groupSets[i]) {
        touchesAdmin := true;
        break;
      }
    }
    if !touchesAdmin {
      return true;
    }
    return access.AllAccess?;
  }

  /** usersPutHandler up to its write: the fields of the payload override those
      that were read. */
  method PutHandler(fsm: Fsm, access: Access, r: Request, ghost last: nat) returns (c: Option<Command>)
    requires r.UpdateUser? && Invariant(fsm.Abs(), last)
    ensures c == DecideFor(fsm.Abs(), access, r)
  {
    if r.id !in fsm.users || r.username == "" || r.password.BadPassword? {
      return None;
    }
    var existing := fsm.users[r.id];
    var groupIds := existing.groupIds;
    if r.newGroupIds.Some? {
      groupIds := r.newGroupIds.value;
    }
    var active := existing.active;
    if r.active.Some? {
      active := r.active.value;
    }
    var allowed := AdminChangeAllowed(access, [existing.groupIds, groupIds]);
    if !allowed {
      assert exists i :: 0 <= i < 2 && TouchesAdmin([existing.groupIds, groupIds][i]);
      return None;
    }
    assert !access.AllAccess? ==> !TouchesAdmin([existing.groupIds, groupIds][0]) && !TouchesAdmin([existing.groupIds, groupIds][1]);
    var other := fsm.GetUserByUsername(r.username);
    if other.Some? && other.value.id != r.id {
      return None;
    }
    for i := 0 to |groupIds.Elems()|
      invariant forall j :: 0 <= j < i ==> groupIds.Elems()[j] in fsm.groups
    {
      if groupIds.Elems()[i] !in fsm.groups {
        return None;
      }
    }
    var passwordHash := existing.passwordHash;
    if r.password.Hashed? {
      passwordHash := r.password.hash;
    }
    return Some(UserCommand(Set(User(existing.id, r.username, passwordHash, groupIds, active, 0))));
  }

  // ----- what each request stores -----

  /** The IDs a request brings are new, as NewID makes them. */
  ghost predicate Fresh(s: State, r: Request) {
    && (r.CreateUser? ==> r.newId !in s.users)
    && (r.CreateGroup? ==> r.newId !in s.groups)
  }

  ghost predicate Holds(s: State, actor: Actor, permission: string) {
    ResolveActor(s, actor).Some? && ResolveActor(s, actor).value.Has(permission)
  }

  ghost predicate HasFullAccess(s: State, actor: Actor) {
    ResolveActor(s, actor) == Some(AllAccess)
  }

  ghost predicate AllKnown(s: State, groupIds: seq<string>) {
    forall i :: 0 <= i < |groupIds| ==> groupIds[i] in s.groups
  }

  /** A creation stores an active user with what the payload says, under the new
      ID; only an admin may name the Admin group. */
  lemma CreateUserStores(s: State, index: nat, r: Request)
    requires r.CreateUser? && Fresh(s, r)
    ensures var t, groupIds := Handle(s, index, r), r.groupIds.Elems();
      if !Holds(s, r.actor, "users:create") || r.username == "" || !r.password.Hashed?
         || ("admin" in groupIds && !HasFullAccess(s, r.actor))
         || NameIsHeld(s, r.username, r.newId) || !AllKnown(s, groupIds) then t == s
      else Puts(s.users, t.users, r.newId, User(r.newId, r.username, r.password.hash, r.groupIds, true, index))
  {
    hide Step, ResolveActor, Puts;
    if Decide(s, r).Some? {
      SetUserStores(s, index, Decide(s, r).value.userOp.value);
    }
  }

  /** An update stores the name, and password, groups and activity where they are
      given. It is refused without the permission, without a known user and known
      groups, for a held name, when a non-admin's update has to do with the Admin
      group, and when no active admin would be left. */
  lemma UpdateUserStores(s: State, last: nat, index: nat, r: Request)
    requires Invariant(s, last) && r.UpdateUser?
    ensures var t := Handle(s, index, r);
      if r.id !in s.users || !Holds(s, r.actor, "users:update") || r.username == "" || r.password.BadPassword? then t == s
      else
        var before := s.users[r.id];
        var after := before.(
          username := r.username, version := index,
          groupIds := if r.newGroupIds.Some? then r.newGroupIds.value else before.groupIds,
          passwordHash := if r.password.Hashed? then r.password.hash else before.passwordHash,
          active := if r.active.Some? then r.active.value else before.active);
        if (("admin" in before.groupIds.Elems() || "admin" in after.groupIds.Elems()) && !HasFullAccess(s, r.actor))
           || NameIsHeld(s, r.username, r.id) || !AllKnown(s, after.groupIds.Elems())
           || (IsOnlyAdmin(s, r.id) && !IsAdminMember(after)) then t == s
        else Puts(s.users, t.users, r.id, after)
  {
    hide Step, ResolveActor, Puts;
    if Decide(s, r).Some? {
      SetUserStores(s, index, Decide(s, r).value.userOp.value);
    }
  }

  lemma DeleteUserRequestDrops(s: State, index: nat, r: Request)
    requires r.DeleteUser?
    ensures var t := Handle(s, index, r);
      if r.id !in s.users || !Holds(s, r.actor, "users:delete") || !HasFullAccess(s, r.actor) || IsOnlyAdmin(s, r.id) then t == s
      else Drops(s.users, t.users, r.id)
  {
    hide Step, ResolveActor, Drops;
    DeleteUserDrops(s, index, r.id);
  }

  /** The catalog, spelled out. */
  predicate IsPermission(permission: string) {
    permission in [
      "flags:read", "flags:write", "flags:update", "flags:delete",
      "users:read", "users:create", "users:update", "users:delete",
      "groups:read", "groups:create", "groups:update", "groups:delete", "audits:read",
      "environments:read", "environments:create", "environments:update", "environments:delete",
      "applicationCredentials:read", "applicationCredentials:create",
      "applicationCredentials:update", "applicationCredentials:delete"]
  }

  lemma CatalogIsComplete(permission: string)
    ensures IsPermission(permission) <==> permission in ALL_PERMISSIONS
  {
  }

  /** A group payload names known permissions and environments. */
  ghost predicate PayloadIsGood(s: State, name: string, permissions: seq<string>, environmentIds: seq<string>) {
    && name != ""
    && (forall i :: 0 <= i < |permissions| ==> IsPermission(permissions[i]))
    && (forall i :: 0 <= i < |environmentIds| ==> environmentIds[i] in s.environments)
  }

  /** Clients cannot make System groups. */
  lemma CreateGroupStores(s: State, index: nat, r: Request)
    requires r.CreateGroup? && Fresh(s, r)
    ensures var t := Handle(s, index, r);
      if !Holds(s, r.actor, "groups:create") || !PayloadIsGood(s, r.name, r.permissions.Elems(), r.environmentIds.Elems())
      then t == s
      else Puts(s.groups, t.groups, r.newId, Group(r.newId, r.name, r.permissions, r.environmentIds, false, index))
  {
    hide Step, ResolveActor, Puts, IsPermission;
    forall p ensures IsPermission(p) <==> p in ALL_PERMISSIONS { CatalogIsComplete(p); }
    if Decide(s, r).Some? {
      SetGroupStores(s, index, Decide(s, r).value.groupOp.value);
    }
  }

  lemma UpdateGroupStores(s: State, last: nat, index: nat, r: Request)
    requires Invariant(s, last) && r.UpdateGroup?
    ensures var t := Handle(s, index, r);
      if r.id !in s.groups || s.groups[r.id].system || !Holds(s, r.actor, "groups:update")
         || !PayloadIsGood(s, r.name, r.permissions.Elems(), r.environmentIds.Elems()) then t == s
      else Puts(s.groups, t.groups, r.id, Group(r.id, r.name, r.permissions, r.environmentIds, false, index))
  {
    hide Step, ResolveActor, Puts, IsPermission;
    forall p ensures IsPermission(p) <==> p in ALL_PERMISSIONS { CatalogIsComplete(p); }
    if Decide(s, r).Some? {
      SetGroupStores(s, index, Decide(s, r).value.groupOp.value);
    }
  }

  lemma DeleteGroupRequestDrops(s: State, index: nat, r: Request)
    requires r.DeleteGroup?
    ensures var t := Handle(s, index, r);
      if r.id !in s.groups || s.groups[r.id].system || !Holds(s, r.actor, "groups:delete") then t == s
      else Drops(s.groups, t.groups, r.id)
  {
    hide Step, ResolveActor, Drops;
    DeleteGroupDrops(s, index, r.id);
  }

  // ----- the set of admins -----

  ghost predicate IsMember(users: map<string, User>, id: string) {
    id in users && IsActiveAdmin(users[id])
  }

  ghost predicate SameMembers(before: map<string, User>, after: map<string, User>) {
    forall id :: IsMember(before, id) <==> IsMember(after, id)
  }

  ghost function Admins(s: State): set<string> {
    set id | id in s.users && ResolvesToAdmin(s, id)
  }

  /** A credential is never an admin; a user is one or not. */
  ghost predicate IsOneOf(admins: set<string>, actor: Actor) {
    actor.UserActor? && actor.userId in admins
  }

  lemma OthersHaveNoFullAccess(s: State, actor: Actor)
    requires !IsOneOf(Admins(s), actor) && ResolveActor(s, actor).Some?
    ensures !ResolveActor(s, actor).value.AllAccess?
  {
    hide AccessOf;
  }

  /** What a non-admin can get a handler to commit about users never concerns a
      member of the Admin group, before or after. */
  lemma NonAdminDecision(s: State, last: nat, access: Access, r: Request)
    requires Invariant(s, last) && !access.AllAccess? && Fresh(s, r)
    requires DecideFor(s, access, r).Some? && DecideFor(s, access, r).value.UserCommand?
    ensures var op := DecideFor(s, access, r).value.userOp;
      op.Set? && !IsActiveAdmin(op.value) && !IsMember(s.users, op.value.id)
  {
  }

  lemma WriteOfANonAdmin(s: State, index: nat, user: User)
    requires !IsActiveAdmin(user)
    ensures var o := ApplyUser(s, index, Set(user));
      && (forall id :: id != user.id ==> (IsMember(o.state.users, id) <==> IsMember(s.users, id)))
      && (IsMember(o.state.users, user.id) <==>
            IsMember(s.users, user.id) && (UsernameTaken(s, user.username, user.id) || IsSoleActiveAdmin(s, user.id)))
  {
  }

  lemma NonAdminRequestKeepsMembers(s: State, last: nat, index: nat, r: Request)
    requires Invariant(s, last) && Fresh(s, r) && !IsOneOf(Admins(s), r.actor)
    ensures SameMembers(s.users, Handle(s, index, r).users)
  {
    hide Admins, ResolveActor;
    if Decide(s, r).Some? {
      OthersHaveNoFullAccess(s, r.actor);
      var access := ResolveActor(s, r.actor).value;
      var c := Decide(s, r).value;
      if c.UserCommand? {
        NonAdminDecision(s, last, access, r);
        WriteOfANonAdmin(s, index, c.userOp.value);
        assert Step(s, Entry(index, c)) == ApplyUser(s, index, c.userOp);
      } else {
        OthersStay(s, Entry(index, c));
      }
    }
  }

  lemma HandleIsTransition(s: State, last: nat, index: nat, r: Request)
    requires Invariant(s, last) && last < index
    ensures Invariant(Handle(s, index, r), index)
    ensures HasAdministration(s) ==> HasAdministration(Handle(s, index, r))
  {
    match Decide(s, r)
    case None => InvariantIsMonotone(s, last, index);
    case Some(c) => StepIsTransition(s, last, Entry(index, c));
  }

  lemma NonAdminRequestKeepsAdmins(s: State, last: nat, index: nat, r: Request, t: State)
    requires Invariant(s, last) && last < index && HasAdministration(s)
    requires Fresh(s, r) && !IsOneOf(Admins(s), r.actor) && t == Handle(s, index, r)
    ensures Invariant(t, index) && HasAdministration(t)
    ensures Admins(t) == Admins(s)
  {
    HandleIsTransition(s, last, index, r);
    NonAdminRequestKeepsMembers(s, last, index, r);
    forall id ensures id in Admins(s) <==> id in Admins(t) {
      AdminMeansActiveMember(s, last, id);
      AdminMeansActiveMember(t, index, id);
      assert IsMember(s.users, id) <==> IsMember(t.users, id);
    }
  }

  ghost predicate AllFresh(s: State, last: nat, requests: seq<Request>) {
    requests != [] ==>
      && AllFresh(s, last, requests[..|requests| - 1])
      && Fresh(HandleAll(s, last, requests[..|requests| - 1]), requests[|requests| - 1])
  }

  /** No request comes from one of these users. */
  ghost predicate NoneFrom(admins: set<string>, requests: seq<Request>) {
    forall i :: 0 <= i < |requests| ==> !IsOneOf(admins, requests[i].actor)
  }

  /** From a seeded state, a sequential run of user and group requests that all
      come from users who are not admins at the start, or from application
      credentials of whatever scopes, leaves unchanged the set of users that
      resolve to admin. */
  lemma {:induction false} NonAdminsCannotChangeAdmins(s: State, last: nat, requests: seq<Request>, t: State)
    requires Invariant(s, last) && HasAdministration(s)
    requires AllFresh(s, last, requests) && NoneFrom(Admins(s), requests)
    requires t == HandleAll(s, last, requests)
    ensures Invariant(t, last + |requests|) && HasAdministration(t)
    ensures Admins(t) == Admins(s)
  {
    hide Invariant, HasAdministration, Admins, IsOneOf, Handle, Fresh;
    if requests != [] {
      var n := |requests| - 1;
      var u := HandleAll(s, last, requests[..n]);
      NonAdminsCannotChangeAdmins(s, last, requests[..n], u);
      NonAdminRequestKeepsAdmins(u, last + n, last + n + 1, requests[n], t);
    }
  }

  // ----- requests that overlap -----

  /** A command that a non-admin's request settled on in an earlier state keeps
      the set of admins exactly when the user it writes has not become an active
      member of the Admin group meanwhile, or is now the only one, or another
      user has taken the name. */
  lemma StaleRequestKeepsAdminsExactlyWhen(
      s: State, last: nat, access: Access, r: Request, t: State, middle: nat, index: nat, u: Outcome)
    requires Invariant(s, last) && !access.AllAccess? && Fresh(s, r) && DecideFor(s, access, r).Some?
    requires Invariant(t, middle) && middle < index && HasAdministration(t)
    requires u == Step(t, Entry(index, DecideFor(s, access, r).value))
    ensures Admins(u.state) == Admins(t) <==>
      var c := DecideFor(s, access, r).value;
      c.UserCommand? && c.userOp.Set? && IsMember(t.users, c.userOp.value.id) ==>
        || UsernameTaken(t, c.userOp.value.username, c.userOp.value.id)
        || IsSoleActiveAdmin(t, c.userOp.value.id)
  {
    hide DecideFor, Fresh, Admins, Invariant, HasAdministration, Step;
    var c := DecideFor(s, access, r).value;
    DecidedIsAdmissible(s, access, r);
    StepIsTransition(t, middle, Entry(index, c));
    AdminsAreMembers(t, middle);
    AdminsAreMembers(u.state, index);
    if c.UserCommand? {
      NonAdminDecision(s, last, access, r);
      assert u == ApplyUser(t, index, c.userOp) by { StepOfUser(t, index, c.userOp); }
      WriteOfANonAdmin(t, index, c.userOp.value);
    } else {
      OthersStay(t, Entry(index, c));
    }
  }

  lemma DecidedIsAdmissible(s: State, access: Access, r: Request)
    requires DecideFor(s, access, r).Some?
    ensures Admissible(DecideFor(s, access, r).value)
  {
  }

  lemma StepOfUser(s: State, index: nat, op: Op<User>)
    ensures Step(s, Entry(index, UserCommand(op))) == ApplyUser(s, index, op)
  {
  }

  /** With administration in place the admins are the active members. */
  lemma AdminsAreMembers(s: State, last: nat)
    requires Invariant(s, last) && HasAdministration(s)
    ensures forall id :: id in Admins(s) <==> IsMember(s.users, id)
  {
    forall id ensures id in Admins(s) <==> IsMember(s.users, id) {
      AdminMeansActiveMember(s, last, id);
    }
  }

  /** Such an overlap in any seeded state: while a non-admin's update of a user
      who is no admin is under way, an admin puts the user into the Admin group;
      the update then takes the user out again. */
  lemma OverlapUndoesAPromotion(s: State, last: nat, access: Access, r: Request, promoted: User, t: State, u: State)
    requires Invariant(s, last) && HasAdministration(s) && !access.AllAccess?
    requires r.UpdateUser? && DecideFor(s, access, r).Some? && r.id in s.users && r.username == s.users[r.id].username
    requires IsActiveAdmin(promoted) && promoted.id == r.id && promoted.username == r.username
    requires t == Step(s, Entry(last + 1, UserCommand(Set(promoted)))).state
    requires u == Step(t, Entry(last + 2, DecideFor(s, access, r).value)).state
    ensures IsMember(t.users, r.id) && !IsMember(u.users, r.id)
  {
    var user := DecideFor(s, access, r).value.userOp.value;
    NonAdminDecision(s, last, access, r);
    assert !UsernameTaken(s, promoted.username, promoted.id);
    StepOfUser(s, last + 1, Set(promoted));
    assert t.users == s.users[r.id := promoted.(version := last + 1)];
    StepOfUser(t, last + 2, Set(user));
    assert !UsernameTaken(t, user.username, user.id) && user.id == r.id;
    assert HasActiveAdmin(s.users);
    var other :| other in s.users && IsActiveAdmin(s.users[other]);
    assert other != r.id && other in t.users && IsActiveAdmin(t.users[other]);
  }
}
