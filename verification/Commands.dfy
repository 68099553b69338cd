/** What each command does to the maps and answers, field by field, and exactly
    when it is refused (the apply function of each entity in
    backend/internal/store). */
module Commands {
  import opened Records
  import opened Conditions
  import opened Machine
  import opened Invariants

  /** Nothing but the record under `k` may have changed. */
  ghost predicate OthersInherited<K(!new), V>(before: map<K, V>, after: map<K, V>, k: K) {
    forall i :: i != k ==> (i in after <==> i in before) && (i in before ==> Inherited(before, after, i))
  }

  ghost predicate Puts<K(!new), V>(before: map<K, V>, after: map<K, V>, k: K, v: V) {
    k in after && after[k] == v && OthersInherited(before, after, k)
  }

  ghost predicate Drops<K(!new), V>(before: map<K, V>, after: map<K, V>, k: K) {
    k !in after && OthersInherited(before, after, k)
  }

  // ----- users -----

  ghost predicate NameIsHeld(s: State, username: string, exceptId: string) {
    exists id :: id in s.users && id != exceptId && s.users[id].username == username
  }

  ghost predicate IsAdminMember(u: User) {
    u.active && "admin" in u.groupIds.Elems()
  }

  ghost predicate IsOnlyAdmin(s: State, id: string) {
    && id in s.users && IsAdminMember(s.users[id])
    && forall other :: other in s.users && IsAdminMember(s.users[other]) ==> other == id
  }

  /** A user is stored as submitted under its ID, with the index for a version,
      unless another user has the name or no active admin would be left. */
  lemma SetUserStores(s: State, index: nat, user: User)
    ensures var o := Step(s, Entry(index, UserCommand(Set(user))));
      if NameIsHeld(s, user.username, user.id) then o == Outcome(s, Failed(ErrUsernameTaken))
      else if IsOnlyAdmin(s, user.id) && !IsAdminMember(user) then o == Outcome(s, Failed(ErrLastAdmin))
      else
        && o.response.StoredUser? && o.response.user.version == index
        && o.response.user.(version := user.version) == user
        && Puts(s.users, o.state.users, user.id, o.response.user)
  {
  }

  /** A user goes unless it is the only active admin. */
  lemma DeleteUserDrops(s: State, index: nat, id: string)
    ensures var o := Step(s, Entry(index, UserCommand(Delete(id))));
      if IsOnlyAdmin(s, id) then o == Outcome(s, Failed(ErrLastAdmin))
      else o.response == Done && Drops(s.users, o.state.users, id)
  {
  }

  // ----- groups -----

  lemma SetGroupStores(s: State, index: nat, group: Group)
    ensures var o := Step(s, Entry(index, GroupCommand(Set(group))));
      if group.id in s.groups && s.groups[group.id].system then o == Outcome(s, Failed(ErrProtectedSystemGroup))
      else
        && o.response.StoredGroup? && o.response.group.version == index
        && o.response.group.(version := group.version) == group
        && Puts(s.groups, o.state.groups, group.id, o.response.group)
  {
  }

  lemma DeleteGroupDrops(s: State, index: nat, id: string)
    ensures var o := Step(s, Entry(index, GroupCommand(Delete(id))));
      if id in s.groups && s.groups[id].system then o == Outcome(s, Failed(ErrProtectedSystemGroup))
      else o.response == Done && Drops(s.groups, o.state.groups, id)
  {
  }

  // ----- audit entries -----

  lemma AppendStores(s: State, index: nat, entry: AuditEntry)
    ensures var o := Step(s, Entry(index, AuditCommand(Append(entry))));
      && o.response.StoredAudit? && o.response.audit.id == index && o.response.audit.(id := entry.id) == entry
      && Puts(s.audits, o.state.audits, index, o.response.audit)
  {
  }

  // ----- environments -----

  lemma SetEnvironmentStores(s: State, index: nat, environment: Environment)
    ensures var o := Step(s, Entry(index, EnvironmentCommand(Set(environment))));
      && o.response.StoredEnvironment? && o.response.environment.version == index
      && o.response.environment.(version := environment.version) == environment
      && Puts(s.environments, o.state.environments, environment.id, o.response.environment)
  {
  }

  lemma RemovalDrops<K(!new), V>(m: map<K, V>, k: K)
    ensures Drops(m, m - {k}, k)
  {
  }

  ghost predicate IsOnlyKey<K, V>(m: map<K, V>, k: K) {
    k in m && forall other :: other in m ==> other == k
  }

  lemma OnlyKeyMeansOneAtMost<K, V>(m: map<K, V>, k: K)
    ensures IsOnlyKey(m, k) <==> k in m && |m| <= 1
  {
    if k in m {
      assert m.Keys == {k} + (m.Keys - {k}) && |m| == |m.Keys|;
      var others := m.Keys - {k};
      assert |others| == |m| - 1;
      assert IsOnlyKey(m, k) <==> others == {};
    }
  }

  lemma DeletedEnvironment(s: State, index: nat, id: string, o: Outcome)
    requires o == Step(s, Entry(index, EnvironmentCommand(Delete(id))))
    ensures
      if id in s.environments && |s.environments| <= 1 then o == Fail(s, ErrLastEnvironment)
      else if HasFlags(s, id) then o == Fail(s, ErrEnvironmentHasFlags)
      else if HasCredentials(s, id) then o == Fail(s, ErrEnvironmentHasCredentials)
      else if HasSegments(s, id) then o == Fail(s, ErrEnvironmentHasSegments)
      else o.response == Done && o.state.environments == s.environments - {id}
  {
    hide HasFlags, HasCredentials, HasSegments;
  }

  /** An environment goes unless it is the last one or something is in it; flags
      are looked at first, then credentials, then segments. */
  lemma DeleteEnvironmentDrops(s: State, index: nat, id: string)
    ensures var o := Step(s, Entry(index, EnvironmentCommand(Delete(id))));
      if IsOnlyKey(s.environments, id) then o == Outcome(s, Failed(ErrLastEnvironment))
      else if exists k :: k in s.flags && s.flags[k].environmentId == id then
        o == Outcome(s, Failed(ErrEnvironmentHasFlags))
      else if exists k :: k in s.credentials && s.credentials[k].environmentId == id then
        o == Outcome(s, Failed(ErrEnvironmentHasCredentials))
      else if exists k :: k in s.segments && s.segments[k].environmentId == id then
        o == Outcome(s, Failed(ErrEnvironmentHasSegments))
      else o.response == Done && Drops(s.environments, o.state.environments, id)
  {
    hide Step, IsOnlyKey, Drops;
    DeletedEnvironment(s, index, id, Step(s, Entry(index, EnvironmentCommand(Delete(id)))));
    OnlyKeyMeansOneAtMost(s.environments, id);
    RemovalDrops(s.environments, id);
  }

  // ----- application credentials -----

  lemma SetCredentialStores(s: State, index: nat, credential: Credential)
    ensures var o := Step(s, Entry(index, CredentialCommand(Set(credential))));
      if credential.environmentId !in s.environments then o == Outcome(s, Failed(ErrUnknownEnvironment))
      else
        && o.response.StoredCredential? && o.response.credential.version == index
        && o.response.credential.(version := credential.version) == credential
        && Puts(s.credentials, o.state.credentials, credential.id, o.response.credential)
  {
  }

  lemma DeleteCredentialDrops(s: State, index: nat, id: string)
    ensures var o := Step(s, Entry(index, CredentialCommand(Delete(id))));
      o.response == Done && Drops(s.credentials, o.state.credentials, id)
  {
  }

  // ----- flags and segments -----

  /** Why a flag cannot be stored at all. */
  ghost predicate NoSuchEnvironment(s: State, flag: Flag) {
    flag.environmentId !in s.environments
  }

  ghost predicate NoSuchType(flag: Flag) {
    flag.kind !in ["boolean", "integer", "string", "json"]
  }

  lemma SetFlagIsRefusedExactlyWhen(s: State, index: nat, flag: Flag)
    ensures var o, k := Step(s, Entry(index, FlagCommand(Set(flag)))), flag.environmentId + "/" + flag.key;
      if NoSuchEnvironment(s, flag) then o == Outcome(s, Failed(ErrUnknownEnvironment))
      else if NoSuchType(flag) then o == Outcome(s, Failed(ErrUnknownFlagType))
      else if k in s.flags && s.flags[k].kind != flag.kind then o == Outcome(s, Failed(ErrFlagTypeChanged))
      else o.response.StoredFlag? && Puts(s.flags, o.state.flags, k, o.response.flag)
  {
  }

  /** A batch is refused for its first bad entry. */
  lemma BatchIsRefusedForItsFirstBadEntry(s: State, index: nat, flags: seq<Flag>, i: nat)
    requires i < |flags|
    requires forall j :: 0 <= j < i ==>
      !NoSuchEnvironment(s, flags[j]) && !NoSuchType(flags[j]) && flags[j].environmentId + "/" + flags[j].key !in s.flags
    ensures var o := Step(s, Entry(index, FlagCommand(SetBatch(flags))));
      && (NoSuchEnvironment(s, flags[i]) ==> o == Outcome(s, Failed(ErrUnknownEnvironment)))
      && (!NoSuchEnvironment(s, flags[i]) && NoSuchType(flags[i]) ==> o == Outcome(s, Failed(ErrUnknownFlagType)))
      && (!NoSuchEnvironment(s, flags[i]) && !NoSuchType(flags[i]) && flags[i].environmentId + "/" + flags[i].key in s.flags ==>
            o == Outcome(s, Failed(ErrFlagExists)))
  {
    assert Step(s, Entry(index, FlagCommand(SetBatch(flags)))) == ApplyFlag(s, index, SetBatch(flags));
    forall j | 0 <= j < i ensures BatchEntryError(s, flags[j]).None? {
      assert !NoSuchType(flags[j]);
    }
    if BatchEntryError(s, flags[i]).Some? {
      FirstBadFlag(s, flags, i);
    }
  }

  lemma SetSegmentIsRefusedExactlyWhen(s: State, index: nat, segment: Segment)
    ensures var o := Step(s, Entry(index, SegmentCommand(Set(segment))));
      if segment.environmentId !in s.environments then o == Outcome(s, Failed(ErrUnknownEnvironment))
      else if |segment.rules.Elems()| > 100 || |segment.included.Elems()| + |segment.excluded.Elems()| > 6000 then
        o == Outcome(s, Failed(ErrSegmentLimitExceeded))
      else if !SegmentWithinLimits(segment) then o == Outcome(s, Failed(ErrSegmentUsesInSegment))
      else o.response.StoredSegment? && Puts(s.segments, o.state.segments, segment.environmentId + "/" + segment.key, o.response.segment)
  {
    hide RuleUsesInSegment;
    assert Step(s, Entry(index, SegmentCommand(Set(segment)))) == ApplySegment(s, index, Set(segment));
    ValidSegmentsDoNotRecurse(segment);
  }

  lemma DeleteFlagDrops(s: State, index: nat, k: string)
    ensures var o := Step(s, Entry(index, FlagCommand(Delete(k))));
      o.response == Done && Drops(s.flags, o.state.flags, k)
  {
  }

  /** A segment goes unless a flag of its environment names it; deleting what is
      not there changes nothing. */
  lemma DeleteSegmentDrops(s: State, index: nat, k: string)
    ensures var o := Step(s, Entry(index, SegmentCommand(Delete(k))));
      if k in s.segments
         && exists j :: j in s.flags && s.flags[j].environmentId == s.segments[k].environmentId && FlagNames(s.flags[j], s.segments[k].key)
      then o == Outcome(s, Failed(ErrSegmentInUse))
      else o.response == Done && Drops(s.segments, o.state.segments, k)
  {
    hide FlagNames;
  }

  // ----- everything else -----

  /** A command of an unknown kind is refused and changes nothing. */
  lemma OtherCommandsAreRefused(s: State, index: nat, name: string)
    ensures Step(s, Entry(index, Undecodable)) == Outcome(s, Failed(ErrDecodeCommand))
    ensures Step(s, Entry(index, UnknownEntity(name))) == Outcome(s, Failed(ErrUnknownEntity))
    ensures Step(s, Entry(index, FlagCommand(UnknownOp(name)))) == Outcome(s, Failed(ErrUnknownOp))
    ensures Step(s, Entry(index, SegmentCommand(UnknownOp(name)))) == Outcome(s, Failed(ErrUnknownOp))
    ensures Step(s, Entry(index, UserCommand(UnknownOp(name)))) == Outcome(s, Failed(ErrUnknownOp))
    ensures Step(s, Entry(index, GroupCommand(UnknownOp(name)))) == Outcome(s, Failed(ErrUnknownOp))
    ensures Step(s, Entry(index, AuditCommand(UnknownOp(name)))) == Outcome(s, Failed(ErrUnknownOp))
    ensures Step(s, Entry(index, EnvironmentCommand(UnknownOp(name)))) == Outcome(s, Failed(ErrUnknownOp))
    ensures Step(s, Entry(index, CredentialCommand(UnknownOp(name)))) == Outcome(s, Failed(ErrUnknownOp))
  {
  }

  /** A run is its steps, one after another. */
  lemma {:induction false} RunIsItsSteps(s: State, log: seq<Entry>, i: nat)
    requires i < |log|
    ensures Run(s, []) == s && Run(s, log[..i + 1]) == Step(Run(s, log[..i]), log[i]).state
    ensures Responses(s, log)[i] == Step(Run(s, log[..i]), log[i]).response
  {
    hide Step;
    var n := |log| - 1;
    assert log[..i + 1][..i] == log[..i];
    if i < n {
      RunIsItsSteps(s, log[..n], i);
      assert log[..n][..i] == log[..i];
    }
  }
}
