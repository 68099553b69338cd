/** Live permission resolution (backend/internal/auth/permissions.go). */
module Permissions {
  import opened Records
  import opened Machine
  import opened Commands
  import opened Invariants
  import opened Replica

  const CREDENTIAL_SCOPES := {"flags:read", "flags:write", "flags:update", "flags:delete"}

  /** What a user may do: everything, or the union of what the groups grant. */
  datatype Access = AllAccess | Limited(permissions: set<string>, environments: set<string>) {
    predicate Has(permission: string) {
      AllAccess? || permission in permissions
    }
  }

  predicate IsAdminGroup(s: State, groupId: string) {
    groupId in s.groups && s.groups[groupId].id == ADMIN_GROUP_ID && s.groups[groupId].system
  }

  /** The specification says nothing of order: a set of groups grants all access
      when the Admin group is among them, and otherwise the union of what each
      known group grants. */
  ghost function AccessOf(s: State, groupIds: set<string>): Access {
    if exists g :: g in groupIds && IsAdminGroup(s, g) then AllAccess
    else Limited(
        set g, p | g in groupIds && g in s.groups && p in s.groups[g].permissions.Elems() :: p,
        set g, v | g in groupIds && g in s.groups && v in s.groups[g].environmentIds.Elems() :: v)
  }

  ghost function IdSet(ids: seq<string>): set<string> {
    set i | 0 <= i < |ids| :: ids[i]
  }

  /** resolvePermissionsForUser: one pass over the groups, out at the first
      Admin group. */
  method ResolveUser(fsm: Fsm, user: User) returns (access: Access)
    ensures access == AccessOf(fsm.Abs(), IdSet(user.groupIds.Elems()))
  {
    ghost var s := fsm.Abs();
    var ids := user.groupIds.Elems();
    var permissions: set<string>, environments: set<string> := {}, {};
    for i := 0 to |ids|
      invariant forall j :: 0 <= j < i ==> !IsAdminGroup(s, ids[j])
      invariant permissions == set j, p | 0 <= j < i && ids[j] in s.groups && p in s.groups[ids[j]].permissions.Elems() :: p
      invariant environments == set j, v | 0 <= j < i && ids[j] in s.groups && v in s.groups[ids[j]].environmentIds.Elems() :: v
    {
      if ids[i] in fsm.groups {
        var group := fsm.groups[ids[i]];
        if group.id == ADMIN_GROUP_ID && group.system {
          assert ids[i] in IdSet(ids) && IsAdminGroup(s, ids[i]);
          return AllAccess;
        }
        permissions := permissions + set p | p in group.permissions.Elems();
        environments := environments + set v | v in group.environmentIds.Elems();
      }
    }
    var spec := AccessOf(s, IdSet(ids));
    assert permissions == spec.permissions;
    assert environments == spec.environments;
    return Limited(permissions, environments);
  }

  /** Resolve: an unknown or inactive user has no access at all. */
  ghost function Resolve(s: State, userId: string): Option<Access> {
    if userId in s.users && s.users[userId].active then
      Some(AccessOf(s, IdSet(s.users[userId].groupIds.Elems())))
    else None
  }

  ghost predicate ResolvesToAdmin(s: State, userId: string) {
    Resolve(s, userId) == Some(AllAccess)
  }

  // ----- service tokens -----

  /** Whom a token names: a user, or an application credential. */
  datatype Actor = UserActor(userId: string) | CredentialActor(credentialId: string)

  /** A credential is never an admin: it may do what its own scopes say, in its
      own environment. */
  ghost function ResolveCredential(s: State, credentialId: string): Option<Access> {
    if credentialId in s.credentials && s.credentials[credentialId].active then
      var c := s.credentials[credentialId];
      Some(Limited(IdSet(c.scopes.Elems()), if c.environmentId != "" then {c.environmentId} else {}))
    else None
  }

  ghost function ResolveActor(s: State, actor: Actor): Option<Access> {
    match actor
    case UserActor(id) => Resolve(s, id)
    case CredentialActor(id) => ResolveCredential(s, id)
  }

  /** authenticateServicePrincipal */
  method AuthenticateService(fsm: Fsm, credentialId: string) returns (access: Option<Access>)
    ensures access == ResolveCredential(fsm.Abs(), credentialId)
  {
    if credentialId !in fsm.credentials || !fsm.credentials[credentialId].active {
      return None;
    }
    var c := fsm.credentials[credentialId];
    var scopes := c.scopes.Elems();
    var permissions: set<string>, environments: set<string> := {}, {};
    for i := 0 to |scopes|
      invariant permissions == IdSet(scopes[..i])
    {
      permissions := permissions + {scopes[i]};
      assert scopes[..i + 1] == scopes[..i] + [scopes[i]];
      OneMoreId(scopes[..i], scopes[i]);
    }
    assert scopes[..|scopes|] == scopes;
    if c.environmentId != "" {
      environments := {c.environmentId};
    }
    return Some(Limited(permissions, environments));
  }

  lemma OneMoreId(ids: seq<string>, id: string)
    ensures IdSet(ids + [id]) == IdSet(ids) + {id}
  {
    var longer := ids + [id];
    assert longer[|ids|] == id;
    assert forall i :: 0 <= i < |ids| ==> longer[i] == ids[i];
  }

  /** A token without the user or credential it names, or with an inactive one,
      gets nowhere; otherwise the credential's own scopes and environment count. */
  lemma CredentialAccessIsItsOwn(s: State, credentialId: string)
    ensures var access := ResolveActor(s, CredentialActor(credentialId));
      if credentialId !in s.credentials || !s.credentials[credentialId].active then access == None
      else
        && access.Some? && access.value.Limited?
        && (forall p :: access.value.Has(p) <==> p in s.credentials[credentialId].scopes.Elems())
        && (forall v :: v in access.value.environments <==> v != "" && v == s.credentials[credentialId].environmentId)
  {
    if credentialId in s.credentials {
      var scopes := s.credentials[credentialId].scopes.Elems();
      assert forall i :: 0 <= i < |scopes| ==> scopes[i] in IdSet(scopes);
    }
  }

  /** A user may do what some known group of the user grants, in the environments
      of such groups, and everything with the Admin group among them. */
  lemma UserAccessIsTheGroups(s: State, userId: string)
    ensures var access := ResolveActor(s, UserActor(userId));
      if userId !in s.users || !s.users[userId].active then access == None
      else
        var ids := s.users[userId].groupIds.Elems();
        && access.Some?
        && (access.value.AllAccess? <==>
              exists g :: g in ids && g in s.groups && s.groups[g].id == "admin" && s.groups[g].system)
        && (access.value.Limited? ==>
              && (forall p :: access.value.Has(p) <==> exists g :: g in ids && g in s.groups && p in s.groups[g].permissions.Elems())
              && (forall v :: v in access.value.environments <==>
                    exists g :: g in ids && g in s.groups && v in s.groups[g].environmentIds.Elems()))
  {
    if userId in s.users {
      var ids := s.users[userId].groupIds.Elems();
      assert forall i :: 0 <= i < |ids| ==> ids[i] in IdSet(ids);
      assert forall g :: g in IdSet(ids) <==> g in ids;
      if g :| g in ids && g in s.groups && s.groups[g].id == "admin" && s.groups[g].system {
        assert IsAdminGroup(s, g);
      }
    }
  }

  /** A deleted credential stops authenticating at once. */
  lemma DeletedCredentialIsNobody(s: State, index: nat, credentialId: string)
    ensures ResolveActor(Step(s, Entry(index, CredentialCommand(Delete(credentialId)))).state, CredentialActor(credentialId)) == None
  {
    hide Step;
    DeleteCredentialDrops(s, index, credentialId);
  }

  /** In a reachable state a user resolves to admin exactly when active, in the
      group with the Admin ID, and that group is a System group. */
  lemma AdminMeansActiveMember(s: State, last: nat, userId: string)
    requires Invariant(s, last)
    ensures ResolvesToAdmin(s, userId)
       <==> userId in s.users && IsActiveAdmin(s.users[userId]) && IsSystemGroup(s, ADMIN_GROUP_ID)
  {
    if userId in s.users {
      var ids := s.users[userId].groupIds.Elems();
      if ADMIN_GROUP_ID in ids {
        assert ADMIN_GROUP_ID in IdSet(ids);
        assert IsSystemGroup(s, ADMIN_GROUP_ID) ==> IsAdminGroup(s, ADMIN_GROUP_ID);
      }
    }
  }

  /** Some active user resolves to admin exactly when administration is there. */
  lemma AdministrationMeansAnAdmin(s: State, last: nat)
    requires Invariant(s, last)
    ensures HasAdministration(s) <==> exists id :: ResolvesToAdmin(s, id)
  {
    if HasAdministration(s) {
      var id :| id in s.users && IsActiveAdmin(s.users[id]);
      AdminMeansActiveMember(s, last, id);
    }
    if id :| ResolvesToAdmin(s, id) {
      AdminMeansActiveMember(s, last, id);
    }
  }
}
