/** What every reachable state satisfies, across all seven maps. */
module Invariants {
  import opened Records
  import opened Conditions
  import opened PairKeys
  import opened Machine

  // ----- the joint invariant -----

  ghost predicate FlagOk(environments: set<string>, k: string, flag: Flag, last: nat) {
    && k == FlagKey(flag)
    && flag.environmentId in environments
    && IsKnownFlagType(flag.kind)
    && flag.revision <= last
    && flag.schemaVersion == FLAG_SCHEMA_VERSION && flag.evaluatorLevel == EVALUATOR_LEVEL
    && (flag.salt == "" ==> flag.key == "")
  }

  ghost predicate FlagsOk(flags: map<string, Flag>, environments: set<string>, last: nat) {
    forall k :: k in flags ==> FlagOk(environments, k, flags[k], last)
  }

  ghost predicate SegmentOk(environments: set<string>, k: string, segment: Segment, last: nat) {
    && k == SegmentMapKey(segment)
    && segment.environmentId in environments
    && SegmentWithinLimits(segment)
    && segment.revision <= last
  }

  ghost predicate SegmentsOk(segments: map<string, Segment>, environments: set<string>, last: nat) {
    forall k :: k in segments ==> SegmentOk(environments, k, segments[k], last)
  }

  ghost predicate UniqueUsernames(users: map<string, User>) {
    forall i, j :: i in users && j in users && users[i].username == users[j].username ==> i == j
  }

  ghost predicate UsersOk(users: map<string, User>, last: nat) {
    && UniqueUsernames(users)
    && forall k :: k in users ==> users[k].id == k && users[k].version <= last
  }

  ghost predicate GroupsOk(groups: map<string, Group>, last: nat) {
    forall k :: k in groups ==> groups[k].id == k && groups[k].version <= last
  }

  ghost predicate AuditsOk(audits: map<nat, AuditEntry>, last: nat) {
    forall k :: k in audits ==> audits[k].id == k && 1 <= k <= last
  }

  /** NewID yields UUIDs: never empty, never with a slash. */
  predicate IsEnvironmentId(id: string) {
    id != "" && SlashFree(id)
  }

  ghost predicate EnvironmentsOk(environments: map<string, Environment>, last: nat) {
    forall k :: k in environments ==>
      environments[k].id == k && IsEnvironmentId(k) && environments[k].version <= last
  }

  ghost predicate CredentialsOk(credentials: map<string, Credential>, environments: set<string>, last: nat) {
    forall k :: k in credentials ==>
      && credentials[k].id == k
      && credentials[k].environmentId in environments
      && credentials[k].version <= last
  }

  ghost predicate Invariant(s: State, last: nat) {
    && FlagsOk(s.flags, s.environments.Keys, last)
    && SegmentsOk(s.segments, s.environments.Keys, last)
    && UsersOk(s.users, last)
    && GroupsOk(s.groups, last)
    && AuditsOk(s.audits, last)
    && EnvironmentsOk(s.environments, last)
    && CredentialsOk(s.credentials, s.environments.Keys, last)
  }

  /** The one thing asked of the commands: environments are created with IDs
      that NewID can produce. Everything else may be any command at all. */
  predicate Admissible(c: Command) {
    c.EnvironmentCommand? && c.environmentOp.Set? ==> IsEnvironmentId(c.environmentOp.value.id)
  }

  /** Log indexes grow strictly, starting above `last`. */
  ghost predicate IndexesGrow(log: seq<Entry>, last: nat) {
    && (forall i :: 0 <= i < |log| ==> last < log[i].index)
    && (forall i, j :: 0 <= i < j < |log| ==> log[i].index < log[j].index)
  }

  ghost predicate IsLog(log: seq<Entry>, last: nat) {
    && IndexesGrow(log, last)
    && forall i :: 0 <= i < |log| ==> Admissible(log[i].command)
  }

  function LastIndex(log: seq<Entry>, last: nat): nat {
    if log == [] then last else log[|log| - 1].index
  }

  // ----- preservation, one entity at a time -----

  lemma {:induction false} WriteAllContents(stored: map<string, Flag>, flags: seq<Flag>, index: nat)
    ensures forall k :: k in WriteAll(stored, flags, index) ==>
      || Inherited(stored, WriteAll(stored, flags, index), k)
      || exists i :: 0 <= i < |flags| && k == FlagKey(flags[i]) && WriteAll(stored, flags, index)[k] == StampFlag(flags[i], index)
    ensures forall k :: k in stored ==> k in WriteAll(stored, flags, index)
  {
    if flags != [] {
      WriteAllContents(stored, flags[..|flags| - 1], index);
    }
  }

  lemma {:induction false} CleanBatch(s: State, flags: seq<Flag>)
    ensures BatchError(s, flags).None? <==> forall i :: 0 <= i < |flags| ==> BatchEntryError(s, flags[i]).None?
  {
    if flags != [] {
      CleanBatch(s, flags[1..]);
      assert forall i :: 1 <= i < |flags| ==> flags[i] == flags[1..][i - 1];
    }
  }

  // ----- what one step does -----

  /** The record under `k` is the old one, untouched. */
  ghost predicate Inherited<K, V>(before: map<K, V>, after: map<K, V>, k: K) {
    k in before && k in after && after[k] == before[k]
  }

  /** Every record is either inherited or stamped after `last`. */
  ghost predicate Stamped<K, V>(before: map<K, V>, after: map<K, V>, stamp: V -> nat, last: nat) {
    forall k :: k in after ==> Inherited(before, after, k) || last < stamp(after[k])
  }

  /** Every record is either inherited or stamped with `index`. */
  ghost predicate StampedWith<K, V>(before: map<K, V>, after: map<K, V>, stamp: V -> nat, index: nat) {
    forall k :: k in after ==> Inherited(before, after, k) || stamp(after[k]) == index
  }

  function FlagStamp(f: Flag): nat { f.revision }
  function SegmentStamp(g: Segment): nat { g.revision }
  function UserStamp(u: User): nat { u.version }
  function GroupStamp(g: Group): nat { g.version }
  function AuditStamp(a: AuditEntry): nat { a.id }
  function EnvironmentStamp(v: Environment): nat { v.version }
  function CredentialStamp(c: Credential): nat { c.version }

  ghost predicate AllStamped(s: State, t: State, last: nat) {
    && Stamped(s.flags, t.flags, FlagStamp, last)
    && Stamped(s.segments, t.segments, SegmentStamp, last)
    && Stamped(s.users, t.users, UserStamp, last)
    && Stamped(s.groups, t.groups, GroupStamp, last)
    && Stamped(s.audits, t.audits, AuditStamp, last)
    && Stamped(s.environments, t.environments, EnvironmentStamp, last)
    && Stamped(s.credentials, t.credentials, CredentialStamp, last)
  }

  /** The audit log only grows. */
  ghost predicate AuditsGrow(s: State, t: State) {
    forall i :: i in s.audits ==> Inherited(s.audits, t.audits, i)
  }

  /** A flag that stays keeps its type. */
  ghost predicate KindsKept(s: State, t: State) {
    forall k :: k in s.flags && k in t.flags ==> t.flags[k].kind == s.flags[k].kind
  }

  /** A segment goes only when no flag of its environment names it. */
  ghost predicate NamedSegmentsKept(s: State, t: State) {
    forall k :: k in s.segments && k !in t.segments ==>
      !SegmentReferenced(s, s.segments[k].environmentId, s.segments[k].key)
  }

  /** The Admin group is there as a System group and has an active member. */
  ghost predicate HasAdministration(s: State) {
    IsSystemGroup(s, ADMIN_GROUP_ID) && HasActiveAdmin(s.users)
  }

  ghost predicate HasActiveAdmin(users: map<string, User>) {
    exists id :: id in users && IsActiveAdmin(users[id])
  }

  /** System groups are never touched again. */
  ghost predicate SystemGroupsKept(s: State, t: State) {
    forall k :: IsSystemGroup(s, k) ==> Inherited(s.groups, t.groups, k)
  }

  ghost predicate Transition(s: State, last: nat, t: State, index: nat) {
    && Invariant(t, index)
    && AllStamped(s, t, last)
    && AuditsGrow(s, t)
    && KindsKept(s, t)
    && NamedSegmentsKept(s, t)
    && SystemGroupsKept(s, t)
    && (s.environments != map[] ==> t.environments != map[])
    && (HasAdministration(s) ==> HasAdministration(t))
  }

  lemma PutIsStamped<K, V>(m: map<K, V>, k: K, v: V, stamp: V -> nat, index: nat)
    requires stamp(v) == index
    ensures StampedWith(m, m[k := v], stamp, index)
  {
  }

  lemma RemovalIsStamped<K, V>(m: map<K, V>, k: K, stamp: V -> nat, index: nat)
    ensures StampedWith(m, m - {k}, stamp, index)
  {
  }

  lemma InvariantIsMonotone(s: State, last: nat, later: nat)
    requires Invariant(s, last) && last <= later
    ensures Invariant(s, later)
  {
  }

  lemma FlagsMayChange(s: State, last: nat, index: nat, flags: map<string, Flag>)
    requires Invariant(s, last) && last < index
    requires FlagsOk(flags, s.environments.Keys, index)
    requires StampedWith(s.flags, flags, FlagStamp, index)
    requires forall k :: k in flags && k in s.flags ==> flags[k].kind == s.flags[k].kind
    ensures Transition(s, last, s.(flags := flags), index)
  {
    InvariantIsMonotone(s, last, index);
  }

  /** An accepted batch only adds flags. */
  lemma BatchAddsFlags(s: State, index: nat, flags: seq<Flag>)
    requires FlagsOk(s.flags, s.environments.Keys, index) && BatchError(s, flags).None?
    ensures FlagsOk(WriteAll(s.flags, flags, index), s.environments.Keys, index)
    ensures forall k :: k in WriteAll(s.flags, flags, index) ==>
      || Inherited(s.flags, WriteAll(s.flags, flags, index), k)
      || (k !in s.flags && WriteAll(s.flags, flags, index)[k].revision == index)
  {
    CleanBatch(s, flags);
    WriteAllContents(s.flags, flags, index);
  }

  lemma FlagSetTransition(s: State, last: nat, index: nat, flag: Flag)
    requires Invariant(s, last) && last < index
    ensures Transition(s, last, ApplyFlag(s, index, Set(flag)).state, index)
  {
    InvariantIsMonotone(s, last, index);
    if ApplyFlag(s, index, Set(flag)).response.Failed? {
      StandingStill(s, last, index);
    } else {
      var stamped := StampFlag(flag, index);
      assert FlagOk(s.environments.Keys, FlagKey(flag), stamped, index);
      PutIsStamped(s.flags, FlagKey(flag), stamped, FlagStamp, index);
      FlagsMayChange(s, last, index, s.flags[FlagKey(flag) := stamped]);
    }
  }

  lemma FlagBatchTransition(s: State, last: nat, index: nat, flags: seq<Flag>)
    requires Invariant(s, last) && last < index
    ensures Transition(s, last, ApplyFlag(s, index, SetBatch(flags)).state, index)
  {
    InvariantIsMonotone(s, last, index);
    if BatchError(s, flags).Some? {
      StandingStill(s, last, index);
    } else {
      BatchAddsFlags(s, index, flags);
      FlagsMayChange(s, last, index, WriteAll(s.flags, flags, index));
    }
  }

  lemma FlagTransition(s: State, last: nat, index: nat, op: Op<Flag>)
    requires Invariant(s, last) && last < index
    ensures Transition(s, last, ApplyFlag(s, index, op).state, index)
  {
    match op
    case Set(flag) => FlagSetTransition(s, last, index, flag);
    case SetBatch(flags) => FlagBatchTransition(s, last, index, flags);
    case Delete(key) =>
      InvariantIsMonotone(s, last, index);
      RemovalIsStamped(s.flags, key, FlagStamp, index);
      FlagsMayChange(s, last, index, s.flags - {key});
    case _ => StandingStill(s, last, index);
  }

  lemma SegmentsMayChange(s: State, last: nat, index: nat, segments: map<string, Segment>)
    requires Invariant(s, last) && last < index
    requires SegmentsOk(segments, s.environments.Keys, index)
    requires StampedWith(s.segments, segments, SegmentStamp, index)
    requires NamedSegmentsKept(s, s.(segments := segments))
    ensures Transition(s, last, s.(segments := segments), index)
  {
    InvariantIsMonotone(s, last, index);
  }

  lemma SegmentSetTransition(s: State, last: nat, index: nat, segment: Segment)
    requires Invariant(s, last) && last < index
    ensures Transition(s, last, ApplySegment(s, index, Set(segment)).state, index)
  {
    InvariantIsMonotone(s, last, index);
    var o := ApplySegment(s, index, Set(segment));
    if o.response.Failed? {
      StandingStill(s, last, index);
    } else {
      ValidSegmentsDoNotRecurse(segment);
      var stamped := o.response.segment;
      assert SegmentWithinLimits(stamped);
      assert SegmentOk(s.environments.Keys, SegmentMapKey(segment), stamped, index);
      PutIsStamped(s.segments, SegmentMapKey(segment), stamped, SegmentStamp, index);
      SegmentsMayChange(s, last, index, s.segments[SegmentMapKey(segment) := stamped]);
    }
  }

  lemma SegmentDeleteTransition(s: State, last: nat, index: nat, key: string)
    requires Invariant(s, last) && last < index
    ensures Transition(s, last, ApplySegment(s, index, Delete(key)).state, index)
  {
    InvariantIsMonotone(s, last, index);
    if ApplySegment(s, index, Delete(key)).state == s {
      StandingStill(s, last, index);
    } else {
      RemovalIsStamped(s.segments, key, SegmentStamp, index);
      SegmentsMayChange(s, last, index, s.segments - {key});
    }
  }

  lemma SegmentTransition(s: State, last: nat, index: nat, op: Op<Segment>)
    requires Invariant(s, last) && last < index
    ensures Transition(s, last, ApplySegment(s, index, op).state, index)
  {
    match op
    case Set(segment) => SegmentSetTransition(s, last, index, segment);
    case Delete(key) => SegmentDeleteTransition(s, last, index, key);
    case _ => StandingStill(s, last, index);
  }

  lemma UsersMayChange(s: State, last: nat, index: nat, users: map<string, User>)
    requires Invariant(s, last) && last < index
    requires UsersOk(users, index)
    requires StampedWith(s.users, users, UserStamp, index)
    requires HasActiveAdmin(s.users) ==> HasActiveAdmin(users)
    ensures Transition(s, last, s.(users := users), index)
  {
    InvariantIsMonotone(s, last, index);
  }

  /** Writing or removing one user leaves an active admin, unless it takes the
      last one away. */
  lemma AnAdminIsLeft(s: State, users: map<string, User>, touched: string)
    requires forall k :: k in s.users && k != touched ==> Inherited(s.users, users, k)
    requires IsSoleActiveAdmin(s, touched) ==> touched in users && IsActiveAdmin(users[touched])
    ensures HasActiveAdmin(s.users) ==> HasActiveAdmin(users)
  {
  }

  lemma UserSetTransition(s: State, last: nat, index: nat, user: User)
    requires Invariant(s, last) && last < index
    ensures Transition(s, last, ApplyUser(s, index, Set(user)).state, index)
  {
    hide HasAdministration;
    InvariantIsMonotone(s, last, index);
    if ApplyUser(s, index, Set(user)).response.Failed? {
      StandingStill(s, last, index);
    } else {
      var stamped := user.(version := index);
      var users := s.users[user.id := stamped];
      assert UsersOk(users, index);
      PutIsStamped(s.users, user.id, stamped, UserStamp, index);
      AnAdminIsLeft(s, users, user.id);
      UsersMayChange(s, last, index, users);
    }
  }

  lemma UserDeleteTransition(s: State, last: nat, index: nat, key: string)
    requires Invariant(s, last) && last < index
    ensures Transition(s, last, ApplyUser(s, index, Delete(key)).state, index)
  {
    InvariantIsMonotone(s, last, index);
    if ApplyUser(s, index, Delete(key)).response.Failed? {
      StandingStill(s, last, index);
    } else {
      RemovalIsStamped(s.users, key, UserStamp, index);
      AnAdminIsLeft(s, s.users - {key}, key);
      UsersMayChange(s, last, index, s.users - {key});
    }
  }

  lemma UserTransition(s: State, last: nat, index: nat, op: Op<User>)
    requires Invariant(s, last) && last < index
    ensures Transition(s, last, ApplyUser(s, index, op).state, index)
  {
    match op
    case Set(user) => UserSetTransition(s, last, index, user);
    case Delete(key) => UserDeleteTransition(s, last, index, key);
    case _ => StandingStill(s, last, index);
  }

  lemma GroupsMayChange(s: State, last: nat, index: nat, groups: map<string, Group>)
    requires Invariant(s, last) && last < index
    requires GroupsOk(groups, index)
    requires StampedWith(s.groups, groups, GroupStamp, index)
    requires SystemGroupsKept(s, s.(groups := groups))
    ensures Transition(s, last, s.(groups := groups), index)
  {
    InvariantIsMonotone(s, last, index);
  }

  lemma GroupSetTransition(s: State, last: nat, index: nat, group: Group)
    requires Invariant(s, last) && last < index
    ensures Transition(s, last, ApplyGroup(s, index, Set(group)).state, index)
  {
    InvariantIsMonotone(s, last, index);
    if IsSystemGroup(s, group.id) {
      StandingStill(s, last, index);
    } else {
      var stamped := group.(version := index);
      PutIsStamped(s.groups, group.id, stamped, GroupStamp, index);
      GroupsMayChange(s, last, index, s.groups[group.id := stamped]);
    }
  }

  lemma GroupDeleteTransition(s: State, last: nat, index: nat, key: string)
    requires Invariant(s, last) && last < index
    ensures Transition(s, last, ApplyGroup(s, index, Delete(key)).state, index)
  {
    InvariantIsMonotone(s, last, index);
    if IsSystemGroup(s, key) {
      StandingStill(s, last, index);
    } else {
      RemovalIsStamped(s.groups, key, GroupStamp, index);
      GroupsMayChange(s, last, index, s.groups - {key});
    }
  }

  lemma GroupTransition(s: State, last: nat, index: nat, op: Op<Group>)
    requires Invariant(s, last) && last < index
    ensures Transition(s, last, ApplyGroup(s, index, op).state, index)
  {
    match op
    case Set(group) => GroupSetTransition(s, last, index, group);
    case Delete(key) => GroupDeleteTransition(s, last, index, key);
    case _ => StandingStill(s, last, index);
  }

  lemma AuditsMayGrow(s: State, last: nat, index: nat, entry: AuditEntry)
    requires Invariant(s, last) && last < index && entry.id == index
    ensures Transition(s, last, s.(audits := s.audits[index := entry]), index)
  {
    InvariantIsMonotone(s, last, index);
  }

  lemma AuditTransition(s: State, last: nat, index: nat, op: Op<AuditEntry>)
    requires Invariant(s, last) && last < index
    ensures Transition(s, last, ApplyAudit(s, index, op).state, index)
  {
    match op
    case Append(entry) => AuditsMayGrow(s, last, index, entry.(id := index));
    case _ => StandingStill(s, last, index);
  }

  lemma EnvironmentsMayChange(s: State, last: nat, index: nat, environments: map<string, Environment>)
    requires Invariant(s, last) && last < index
    requires EnvironmentsOk(environments, index)
    requires FlagsOk(s.flags, environments.Keys, index)
    requires SegmentsOk(s.segments, environments.Keys, index)
    requires CredentialsOk(s.credentials, environments.Keys, index)
    requires StampedWith(s.environments, environments, EnvironmentStamp, index)
    requires s.environments != map[] ==> environments != map[]
    ensures Transition(s, last, s.(environments := environments), index)
  {
    InvariantIsMonotone(s, last, index);
  }

  lemma EnvironmentSetTransition(s: State, last: nat, index: nat, environment: Environment)
    requires Invariant(s, last) && last < index && IsEnvironmentId(environment.id)
    ensures Transition(s, last, ApplyEnvironment(s, index, Set(environment)).state, index)
  {
    InvariantIsMonotone(s, last, index);
    var stamped := environment.(version := index);
    var environments := s.environments[environment.id := stamped];
    assert FlagsOk(s.flags, environments.Keys, index);
    assert SegmentsOk(s.segments, environments.Keys, index);
    assert environment.id in environments;
    PutIsStamped(s.environments, environment.id, stamped, EnvironmentStamp, index);
    EnvironmentsMayChange(s, last, index, environments);
  }

  lemma LastEnvironmentStays<V>(environments: map<string, V>, id: string)
    requires environments != map[]
    requires !(id in environments && |environments| <= 1)
    ensures environments - {id} != map[]
  {
    assert (environments - {id}).Keys == environments.Keys - {id};
    assert |environments.Keys| == |environments|;
    if id in environments {
      assert |environments.Keys - {id}| == |environments.Keys| - 1;
    } else {
      assert environments.Keys - {id} == environments.Keys;
    }
  }

  lemma UnusedEnvironmentCanGo(s: State, last: nat, id: string)
    requires Invariant(s, last)
    requires !HasFlags(s, id) && !HasSegments(s, id) && !HasCredentials(s, id)
    ensures FlagsOk(s.flags, (s.environments - {id}).Keys, last)
    ensures SegmentsOk(s.segments, (s.environments - {id}).Keys, last)
    ensures CredentialsOk(s.credentials, (s.environments - {id}).Keys, last)
  {
  }

  lemma EnvironmentDeleteTransition(s: State, last: nat, index: nat, id: string)
    requires Invariant(s, last) && last < index
    ensures Transition(s, last, ApplyEnvironment(s, index, Delete(id)).state, index)
  {
    hide HasAdministration;
    InvariantIsMonotone(s, last, index);
    if ApplyEnvironment(s, index, Delete(id)).response.Failed? {
      StandingStill(s, last, index);
    } else {
      UnusedEnvironmentCanGo(s, index, id);
      RemovalIsStamped(s.environments, id, EnvironmentStamp, index);
      if s.environments != map[] {
        LastEnvironmentStays(s.environments, id);
      }
      EnvironmentsMayChange(s, last, index, s.environments - {id});
    }
  }

  lemma EnvironmentTransition(s: State, last: nat, index: nat, op: Op<Environment>)
    requires Invariant(s, last) && last < index && (op.Set? ==> IsEnvironmentId(op.value.id))
    ensures Transition(s, last, ApplyEnvironment(s, index, op).state, index)
  {
    match op
    case Set(environment) => EnvironmentSetTransition(s, last, index, environment);
    case Delete(id) => EnvironmentDeleteTransition(s, last, index, id);
    case _ => StandingStill(s, last, index);
  }

  lemma CredentialsMayChange(s: State, last: nat, index: nat, credentials: map<string, Credential>)
    requires Invariant(s, last) && last < index
    requires CredentialsOk(credentials, s.environments.Keys, index)
    requires StampedWith(s.credentials, credentials, CredentialStamp, index)
    ensures Transition(s, last, s.(credentials := credentials), index)
  {
    InvariantIsMonotone(s, last, index);
  }

  lemma CredentialTransition(s: State, last: nat, index: nat, op: Op<Credential>)
    requires Invariant(s, last) && last < index
    ensures Transition(s, last, ApplyCredential(s, index, op).state, index)
  {
    InvariantIsMonotone(s, last, index);
    match op
    case Set(credential) =>
      if credential.environmentId in s.environments {
        var stamped := credential.(version := index);
        PutIsStamped(s.credentials, credential.id, stamped, CredentialStamp, index);
        CredentialsMayChange(s, last, index, s.credentials[credential.id := stamped]);
      } else {
        StandingStill(s, last, index);
      }
    case Delete(key) =>
      RemovalIsStamped(s.credentials, key, CredentialStamp, index);
      CredentialsMayChange(s, last, index, s.credentials - {key});
    case _ => StandingStill(s, last, index);
  }

  lemma StandingStill(s: State, last: nat, index: nat)
    requires Invariant(s, last) && last < index
    ensures Transition(s, last, s, index)
  {
    InvariantIsMonotone(s, last, index);
  }

  /** Every entry, whatever its command, keeps the joint invariant and loses
      nothing it must not lose. */
  lemma StepIsTransition(s: State, last: nat, e: Entry)
    requires Invariant(s, last) && last < e.index && Admissible(e.command)
    ensures Transition(s, last, Step(s, e).state, e.index)
  {
    hide Invariant, Transition, ApplyFlag, ApplySegment, ApplyUser, ApplyGroup, ApplyAudit, ApplyEnvironment, ApplyCredential;
    match e.command
    case FlagCommand(op) => FlagTransition(s, last, e.index, op); assert Step(s, e) == ApplyFlag(s, e.index, op);
    case SegmentCommand(op) => SegmentTransition(s, last, e.index, op); assert Step(s, e) == ApplySegment(s, e.index, op);
    case UserCommand(op) => UserTransition(s, last, e.index, op); assert Step(s, e) == ApplyUser(s, e.index, op);
    case GroupCommand(op) => GroupTransition(s, last, e.index, op); assert Step(s, e) == ApplyGroup(s, e.index, op);
    case AuditCommand(op) => AuditTransition(s, last, e.index, op); assert Step(s, e) == ApplyAudit(s, e.index, op);
    case EnvironmentCommand(op) => EnvironmentTransition(s, last, e.index, op); assert Step(s, e) == ApplyEnvironment(s, e.index, op);
    case CredentialCommand(op) => CredentialTransition(s, last, e.index, op); assert Step(s, e) == ApplyCredential(s, e.index, op);
    case _ => StandingStill(s, last, e.index); assert Step(s, e).state == s;
  }

  // ----- runs -----

  /** What holds between two points of a run: the invariant at the later one,
      no audit entry lost or altered, System groups as they were, every other
      record either exactly what it was or stamped above every index applied
      before, an environment left, and administration not lost. */
  ghost predicate Progress(s: State, last: nat, t: State, index: nat) {
    && last <= index
    && Invariant(t, index)
    && AuditsGrow(s, t)
    && SystemGroupsKept(s, t)
    && AllStamped(s, t, last)
    && (s.environments != map[] ==> t.environments != map[])
    && (HasAdministration(s) ==> HasAdministration(t))
  }

  lemma StampsChain<K, V>(a: map<K, V>, b: map<K, V>, c: map<K, V>, stamp: V -> nat, last: nat, middle: nat)
    requires last <= middle && Stamped(a, b, stamp, last) && Stamped(b, c, stamp, middle)
    ensures Stamped(a, c, stamp, last)
  {
  }

  lemma ProgressGoesOn(s: State, last: nat, t: State, middle: nat, u: State, index: nat)
    requires Progress(s, last, t, middle) && middle < index && Transition(t, middle, u, index)
    ensures Progress(s, last, u, index)
  {
    StampsChain(s.flags, t.flags, u.flags, FlagStamp, last, middle);
    StampsChain(s.segments, t.segments, u.segments, SegmentStamp, last, middle);
    StampsChain(s.users, t.users, u.users, UserStamp, last, middle);
    StampsChain(s.groups, t.groups, u.groups, GroupStamp, last, middle);
    StampsChain(s.audits, t.audits, u.audits, AuditStamp, last, middle);
    StampsChain(s.environments, t.environments, u.environments, EnvironmentStamp, last, middle);
    StampsChain(s.credentials, t.credentials, u.credentials, CredentialStamp, last, middle);
    forall k | IsSystemGroup(s, k) ensures Inherited(s.groups, u.groups, k) {
      assert Inherited(s.groups, t.groups, k) && IsSystemGroup(t, k);
    }
  }

  /** Every run makes progress from any reachable state. */
  lemma {:induction false} RunMakesProgress(s: State, last: nat, log: seq<Entry>)
    requires Invariant(s, last) && IsLog(log, last)
    ensures Progress(s, last, Run(s, log), LastIndex(log, last))
  {
    if log != [] {
      var front := log[..|log| - 1];
      RunMakesProgress(s, last, front);
      StepIsTransition(Run(s, front), LastIndex(front, last), log[|log| - 1]);
      ProgressGoesOn(s, last, Run(s, front), LastIndex(front, last), Run(s, log), LastIndex(log, last));
    }
  }

  predicate IsAppend(e: Entry) {
    e.command.AuditCommand? && e.command.auditOp.Append?
  }

  /** The record an append leaves: the submitted one under the log index. */
  function Appended(e: Entry): AuditEntry
    requires IsAppend(e)
  {
    e.command.auditOp.entry.(id := e.index)
  }

  lemma StepAppends(s: State, e: Entry)
    ensures Step(s, e).state.audits == if IsAppend(e) then s.audits[e.index := Appended(e)] else s.audits
  {
    if e.command.AuditCommand? {
      assert Step(s, e) == ApplyAudit(s, e.index, e.command.auditOp);
    } else {
      OthersStay(s, e);
    }
  }

  /** The later audit log is the earlier one and the appends of the log, each
      under its own index: nothing is lost, altered, dropped or made up. */
  ghost predicate HoldsTheAppends(before: map<nat, AuditEntry>, log: seq<Entry>, after: map<nat, AuditEntry>) {
    && (forall k :: k in after ==> k in before || exists i :: 0 <= i < |log| && IsAppend(log[i]) && log[i].index == k)
    && (forall k :: k in before ==> Inherited(before, after, k))
    && (forall i :: 0 <= i < |log| && IsAppend(log[i]) ==> log[i].index in after && after[log[i].index] == Appended(log[i]))
  }

  lemma OneMoreEntry(before: map<nat, AuditEntry>, last: nat, log: seq<Entry>, middle: map<nat, AuditEntry>, after: map<nat, AuditEntry>)
    requires (forall k :: k in before ==> k <= last) && IndexesGrow(log, last) && log != []
    requires HoldsTheAppends(before, log[..|log| - 1], middle)
    requires var e := log[|log| - 1]; after == if IsAppend(e) then middle[e.index := Appended(e)] else middle
    ensures HoldsTheAppends(before, log, after)
  {
    hide IsAppend, Appended;
    var n := |log| - 1;
    forall k | k in after
      ensures k in before || exists i :: 0 <= i < |log| && IsAppend(log[i]) && log[i].index == k
    {
      if k in middle && k !in before {
        var i :| 0 <= i < n && IsAppend(log[..n][i]) && log[..n][i].index == k;
        assert IsAppend(log[i]);
      }
    }
    forall i | 0 <= i < |log| && IsAppend(log[i])
      ensures log[i].index in after && after[log[i].index] == Appended(log[i])
    {
      if i < n {
        assert log[..n][i] == log[i];
      }
    }
  }

  /** Over any run whatever, the audit log ends up as exactly that. */
  lemma {:induction false} AuditLogIsTheAppends(s: State, last: nat, log: seq<Entry>, t: State)
    requires (forall k :: k in s.audits ==> k <= last) && IndexesGrow(log, last) && t == Run(s, log)
    ensures HoldsTheAppends(s.audits, log, t.audits)
  {
    if log != [] {
      hide Step, HoldsTheAppends, IsAppend;
      var n := |log| - 1;
      var u := Run(s, log[..n]);
      AuditLogIsTheAppends(s, last, log[..n], u);
      StepAppends(u, log[n]);
      OneMoreEntry(s.audits, last, log, u.audits, t.audits);
    }
  }

  ghost predicate ReferencesResolve(s: State) {
    && (forall k :: k in s.flags ==> s.flags[k].environmentId in s.environments)
    && (forall k :: k in s.segments ==> s.segments[k].environmentId in s.environments)
    && (forall k :: k in s.credentials ==> s.credentials[k].environmentId in s.environments)
  }

  /** In every state of every run from an empty store each flag, segment and
      credential names an existing environment, each stored segment is within
      its limits and does not recurse, and usernames are unique. */
  lemma ReachableStatesAreSound(log: seq<Entry>)
    requires IsLog(log, 0)
    ensures Invariant(Run(EMPTY_STATE, log), LastIndex(log, 0))
    ensures ReferencesResolve(Run(EMPTY_STATE, log))
    ensures UniqueUsernames(Run(EMPTY_STATE, log).users)
    ensures forall k :: k in Run(EMPTY_STATE, log).segments ==> SegmentWithinLimits(Run(EMPTY_STATE, log).segments[k])
  {
    RunMakesProgress(EMPTY_STATE, 0, log);
  }

  /** Some property of the state holds before every entry of a run. */
  ghost predicate Throughout(s: State, log: seq<Entry>, p: State -> bool) {
    log != [] ==> Throughout(s, log[..|log| - 1], p) && p(Run(s, log[..|log| - 1]))
  }

  /** A flag keeps its type for as long as it is there. */
  lemma {:induction false} FlagTypeIsFixed(s: State, last: nat, log: seq<Entry>, k: string)
    requires Invariant(s, last) && IsLog(log, last)
    requires Throughout(s, log, (t: State) => k in t.flags) && k in s.flags
    ensures k in Run(s, log).flags ==> Run(s, log).flags[k].kind == s.flags[k].kind
  {
    if log != [] {
      var front := log[..|log| - 1];
      FlagTypeIsFixed(s, last, front, k);
      RunMakesProgress(s, last, front);
      StepIsTransition(Run(s, front), LastIndex(front, last), log[|log| - 1]);
      assert KindsKept(Run(s, front), Run(s, log));
    }
  }

  ghost predicate SegmentThere(s: State, environmentId: string, segmentKey: string) {
    var k := MapKey(environmentId, segmentKey);
    k in s.segments && s.segments[k].environmentId == environmentId && s.segments[k].key == segmentKey
  }

  lemma TransitionKeepsNamedSegment(s: State, last: nat, t: State, index: nat, environmentId: string, segmentKey: string)
    requires Invariant(s, last) && Transition(s, last, t, index)
    requires SegmentThere(s, environmentId, segmentKey)
    requires SegmentReferenced(s, environmentId, segmentKey)
    ensures SegmentThere(t, environmentId, segmentKey)
  {
    var k := MapKey(environmentId, segmentKey);
    assert k in t.segments;
    assert SegmentOk(t.environments.Keys, k, t.segments[k], index);
    MapKeyIsInjective(t.segments[k].environmentId, t.segments[k].key, environmentId, segmentKey);
  }

  lemma StepKeepsNamedSegment(s: State, last: nat, e: Entry, environmentId: string, segmentKey: string)
    requires Invariant(s, last) && last < e.index && Admissible(e.command)
    requires SegmentThere(s, environmentId, segmentKey)
    requires SegmentReferenced(s, environmentId, segmentKey)
    ensures SegmentThere(Step(s, e).state, environmentId, segmentKey)
  {
    StepIsTransition(s, last, e);
    TransitionKeepsNamedSegment(s, last, Step(s, e).state, e.index, environmentId, segmentKey);
  }

  /** Over any run, a segment that is there stays there for as long as some flag
      of its environment names it, however deep in its conditions. */
  lemma {:induction false} NamedSegmentIsNeverPulled(s: State, last: nat, log: seq<Entry>, environmentId: string, segmentKey: string)
    requires Invariant(s, last) && IsLog(log, last)
    requires SegmentThere(s, environmentId, segmentKey)
    requires Throughout(s, log, (t: State) => SegmentReferenced(t, environmentId, segmentKey))
    ensures SegmentThere(Run(s, log), environmentId, segmentKey)
  {
    hide Invariant, SegmentThere;
    if log != [] {
      var front := log[..|log| - 1];
      NamedSegmentIsNeverPulled(s, last, front, environmentId, segmentKey);
      RunMakesProgress(s, last, front);
      StepKeepsNamedSegment(Run(s, front), LastIndex(front, last), log[|log| - 1], environmentId, segmentKey);
    }
  }
}
