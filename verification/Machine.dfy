/** The replicated state machine as a function: one committed entry takes a
    state to a state and a response (backend/internal/store/fsm.go and the
    apply function of each entity). */
module Machine {
  import opened Records
  import opened Conditions
  import opened PairKeys

  const ADMIN_GROUP_ID := "admin"
  const FLAG_SCHEMA_VERSION := 1
  const SEGMENT_SCHEMA_VERSION := 1
  const EVALUATOR_LEVEL := 1

  function Fail(s: State, error: Error): Outcome {
    Outcome(s, Failed(error))
  }

  // ----- flags -----

  predicate IsKnownFlagType(kind: string) {
    kind == "boolean" || kind == "integer" || kind == "string" || kind == "json"
  }

  function StampFlag(flag: Flag, index: nat): Flag {
    flag.(schemaVersion := FLAG_SCHEMA_VERSION, revision := index, evaluatorLevel := EVALUATOR_LEVEL,
          salt := if flag.salt == "" then flag.key else flag.salt)
  }

  function FlagKey(flag: Flag): string {
    MapKey(flag.environmentId, flag.key)
  }

  function BatchEntryError(s: State, flag: Flag): Option<Error> {
    if flag.environmentId !in s.environments then Some(ErrUnknownEnvironment)
    else if !IsKnownFlagType(flag.kind) then Some(ErrUnknownFlagType)
    else if FlagKey(flag) in s.flags then Some(ErrFlagExists)
    else None
  }

  /** The error of the first bad flag of a batch. */
  function BatchError(s: State, flags: seq<Flag>): Option<Error> {
    if flags == [] then None
    else match BatchEntryError(s, flags[0])
      case Some(e) => Some(e)
      case None => BatchError(s, flags[1..])
  }

  lemma {:induction false} FirstBadFlag(s: State, flags: seq<Flag>, i: nat)
    requires i < |flags| && BatchEntryError(s, flags[i]).Some?
    requires forall j :: 0 <= j < i ==> BatchEntryError(s, flags[j]).None?
    ensures BatchError(s, flags) == BatchEntryError(s, flags[i])
  {
    if i > 0 {
      assert flags[1..][i - 1] == flags[i];
      assert forall j :: 0 <= j < i - 1 ==> flags[1..][j] == flags[j + 1];
      FirstBadFlag(s, flags[1..], i - 1);
    }
  }

  function StampAll(flags: seq<Flag>, index: nat): seq<Flag> {
    seq(|flags|, i requires 0 <= i < |flags| => StampFlag(flags[i], index))
  }

  /** The stored flags after writing a batch from left to right. */
  function WriteAll(stored: map<string, Flag>, flags: seq<Flag>, index: nat): map<string, Flag> {
    if flags == [] then stored
    else
      var last := flags[|flags| - 1];
      WriteAll(stored, flags[..|flags| - 1], index)[FlagKey(last) := StampFlag(last, index)]
  }

  function ApplyFlag(s: State, index: nat, op: Op<Flag>): (r: Outcome)
    ensures r.state == s.(flags := r.state.flags)
  {
    match op
    case Set(flag) =>
      if flag.environmentId !in s.environments then Fail(s, ErrUnknownEnvironment)
      else if !IsKnownFlagType(flag.kind) then Fail(s, ErrUnknownFlagType)
      else if FlagKey(flag) in s.flags && s.flags[FlagKey(flag)].kind != flag.kind then Fail(s, ErrFlagTypeChanged)
      else
        var stamped := StampFlag(flag, index);
        Outcome(s.(flags := s.flags[FlagKey(flag) := stamped]), StoredFlag(stamped))
    case SetBatch(flags) =>
      (match BatchError(s, flags)
       case Some(e) => Fail(s, e)
       case None => Outcome(s.(flags := WriteAll(s.flags, flags, index)), StoredFlags(StampAll(flags, index))))
    case Delete(key) => Outcome(s.(flags := s.flags - {key}), Done)
    case _ => Fail(s, ErrUnknownOp)
  }

  // ----- segments -----

  predicate SegmentReferenced(s: State, environmentId: string, segmentKey: string) {
    exists k :: k in s.flags && s.flags[k].environmentId == environmentId && FlagNames(s.flags[k], segmentKey)
  }

  function SegmentMapKey(segment: Segment): string {
    MapKey(segment.environmentId, segment.key)
  }

  function ApplySegment(s: State, index: nat, op: Op<Segment>): (r: Outcome)
    ensures r.state == s.(segments := r.state.segments)
  {
    match op
    case Set(segment) =>
      if segment.environmentId !in s.environments then Fail(s, ErrUnknownEnvironment)
      else (match SegmentError(segment)
        case Some(e) => Fail(s, e)
        case None =>
          var stamped := segment.(schemaVersion := SEGMENT_SCHEMA_VERSION, revision := index, evaluatorLevel := EVALUATOR_LEVEL);
          Outcome(s.(segments := s.segments[SegmentMapKey(segment) := stamped]), StoredSegment(stamped)))
    case Delete(key) =>
      if key !in s.segments then Outcome(s, Done)
      else if SegmentReferenced(s, s.segments[key].environmentId, s.segments[key].key) then Fail(s, ErrSegmentInUse)
      else Outcome(s.(segments := s.segments - {key}), Done)
    case _ => Fail(s, ErrUnknownOp)
  }

  // ----- users -----

  predicate IsActiveAdmin(u: User) {
    u.active && ADMIN_GROUP_ID in u.groupIds.Elems()
  }

  predicate UsernameKnown(s: State, username: string) {
    exists id :: id in s.users && s.users[id].username == username
  }

  /** Some user other than the one under this ID has the name. */
  predicate UsernameTaken(s: State, username: string, exceptId: string) {
    exists id :: id in s.users && id != exceptId && s.users[id].username == username
  }

  predicate IsSoleActiveAdmin(s: State, id: string) {
    && id in s.users && IsActiveAdmin(s.users[id])
    && forall other :: other in s.users && other != id ==> !IsActiveAdmin(s.users[other])
  }

  function ApplyUser(s: State, index: nat, op: Op<User>): (r: Outcome)
    ensures r.state == s.(users := r.state.users)
  {
    match op
    case Set(user) =>
      if UsernameTaken(s, user.username, user.id) then Fail(s, ErrUsernameTaken)
      else if IsSoleActiveAdmin(s, user.id) && !IsActiveAdmin(user) then Fail(s, ErrLastAdmin)
      else
        var stamped := user.(version := index);
        Outcome(s.(users := s.users[user.id := stamped]), StoredUser(stamped))
    case Delete(key) =>
      if IsSoleActiveAdmin(s, key) then Fail(s, ErrLastAdmin)
      else Outcome(s.(users := s.users - {key}), Done)
    case _ => Fail(s, ErrUnknownOp)
  }

  // ----- groups -----

  predicate IsSystemGroup(s: State, id: string) {
    id in s.groups && s.groups[id].system
  }

  function ApplyGroup(s: State, index: nat, op: Op<Group>): (r: Outcome)
    ensures r.state == s.(groups := r.state.groups)
  {
    match op
    case Set(group) =>
      if IsSystemGroup(s, group.id) then Fail(s, ErrProtectedSystemGroup)
      else
        var stamped := group.(version := index);
        Outcome(s.(groups := s.groups[group.id := stamped]), StoredGroup(stamped))
    case Delete(key) =>
      if IsSystemGroup(s, key) then Fail(s, ErrProtectedSystemGroup)
      else Outcome(s.(groups := s.groups - {key}), Done)
    case _ => Fail(s, ErrUnknownOp)
  }

  // ----- audit entries -----

  function ApplyAudit(s: State, index: nat, op: Op<AuditEntry>): (r: Outcome)
    ensures r.state == s.(audits := r.state.audits)
  {
    match op
    case Append(entry) =>
      var stamped := entry.(id := index);
      Outcome(s.(audits := s.audits[index := stamped]), StoredAudit(stamped))
    case _ => Fail(s, ErrUnknownOp)
  }

  // ----- environments -----

  predicate HasFlags(s: State, environmentId: string) {
    exists k :: k in s.flags && s.flags[k].environmentId == environmentId
  }

  predicate HasCredentials(s: State, environmentId: string) {
    exists k :: k in s.credentials && s.credentials[k].environmentId == environmentId
  }

  predicate HasSegments(s: State, environmentId: string) {
    exists k :: k in s.segments && s.segments[k].environmentId == environmentId
  }

  function ApplyEnvironment(s: State, index: nat, op: Op<Environment>): (r: Outcome)
    ensures r.state == s.(environments := r.state.environments)
  {
    match op
    case Set(environment) =>
      var stamped := environment.(version := index);
      Outcome(s.(environments := s.environments[environment.id := stamped]), StoredEnvironment(stamped))
    case Delete(key) =>
      if key in s.environments && |s.environments| <= 1 then Fail(s, ErrLastEnvironment)
      else if HasFlags(s, key) then Fail(s, ErrEnvironmentHasFlags)
      else if HasCredentials(s, key) then Fail(s, ErrEnvironmentHasCredentials)
      else if HasSegments(s, key) then Fail(s, ErrEnvironmentHasSegments)
      else Outcome(s.(environments := s.environments - {key}), Done)
    case _ => Fail(s, ErrUnknownOp)
  }

  // ----- application credentials -----

  function ApplyCredential(s: State, index: nat, op: Op<Credential>): (r: Outcome)
    ensures r.state == s.(credentials := r.state.credentials)
  {
    match op
    case Set(credential) =>
      if credential.environmentId !in s.environments then Fail(s, ErrUnknownEnvironment)
      else
        var stamped := credential.(version := index);
        Outcome(s.(credentials := s.credentials[credential.id := stamped]), StoredCredential(stamped))
    case Delete(key) => Outcome(s.(credentials := s.credentials - {key}), Done)
    case _ => Fail(s, ErrUnknownOp)
  }

  // ----- dispatch and runs -----

  /** One entry of the log. A command that fails changes none of the maps. */
  function Step(s: State, e: Entry): (r: Outcome)
    ensures r.response.Failed? ==> r.state == s
  {
    match e.command
    case FlagCommand(op) => ApplyFlag(s, e.index, op)
    case SegmentCommand(op) => ApplySegment(s, e.index, op)
    case UserCommand(op) => ApplyUser(s, e.index, op)
    case GroupCommand(op) => ApplyGroup(s, e.index, op)
    case AuditCommand(op) => ApplyAudit(s, e.index, op)
    case EnvironmentCommand(op) => ApplyEnvironment(s, e.index, op)
    case CredentialCommand(op) => ApplyCredential(s, e.index, op)
    case UnknownEntity(_) => Fail(s, ErrUnknownEntity)
    case Undecodable => Fail(s, ErrDecodeCommand)
  }

  /** A command changes no map but its own entity's. */
  lemma OthersStay(s: State, e: Entry)
    ensures !e.command.FlagCommand? ==> Step(s, e).state.flags == s.flags
    ensures !e.command.SegmentCommand? ==> Step(s, e).state.segments == s.segments
    ensures !e.command.UserCommand? ==> Step(s, e).state.users == s.users
    ensures !e.command.GroupCommand? ==> Step(s, e).state.groups == s.groups
    ensures !e.command.AuditCommand? ==> Step(s, e).state.audits == s.audits
    ensures !e.command.EnvironmentCommand? ==> Step(s, e).state.environments == s.environments
    ensures !e.command.CredentialCommand? ==> Step(s, e).state.credentials == s.credentials
  {
    hide ApplyFlag, ApplySegment, ApplyUser, ApplyGroup, ApplyAudit, ApplyEnvironment, ApplyCredential;
    match e.command
    case FlagCommand(op) => assert Step(s, e) == ApplyFlag(s, e.index, op);
    case SegmentCommand(op) => assert Step(s, e) == ApplySegment(s, e.index, op);
    case UserCommand(op) => assert Step(s, e) == ApplyUser(s, e.index, op);
    case GroupCommand(op) => assert Step(s, e) == ApplyGroup(s, e.index, op);
    case AuditCommand(op) => assert Step(s, e) == ApplyAudit(s, e.index, op);
    case EnvironmentCommand(op) => assert Step(s, e) == ApplyEnvironment(s, e.index, op);
    case CredentialCommand(op) => assert Step(s, e) == ApplyCredential(s, e.index, op);
    case _ => assert Step(s, e).state == s;
  }

  /** The state a replica reaches by applying a log. */
  function Run(s: State, log: seq<Entry>): State {
    if log == [] then s
    else Step(Run(s, log[..|log| - 1]), log[|log| - 1]).state
  }

  /** The responses it gives on the way. */
  function Responses(s: State, log: seq<Entry>): (r: seq<Response>)
    ensures |r| == |log|
  {
    if log == [] then []
    else Responses(s, log[..|log| - 1]) + [Step(Run(s, log[..|log| - 1]), log[|log| - 1]).response]
  }

  lemma {:induction false} RunStateFromCut(s: State, before: seq<Entry>, after: seq<Entry>)
    ensures Run(s, before + after) == Run(Run(s, before), after)
  {
    if after == [] {
      assert before + after == before;
    } else {
      var n := |after| - 1;
      assert (before + after)[..|before + after| - 1] == before + after[..n];
      RunStateFromCut(s, before, after[..n]);
    }
  }

  /** A log can be cut anywhere: running the rest from the state at the cut
      gives the state and the responses of the whole. */
  lemma {:induction false} RunFromCut(s: State, before: seq<Entry>, after: seq<Entry>)
    ensures Run(s, before + after) == Run(Run(s, before), after)
    ensures Responses(s, before + after) == Responses(s, before) + Responses(Run(s, before), after)
  {
    RunStateFromCut(s, before, after);
    if after == [] {
      assert before + after == before;
    } else {
      var n := |after| - 1;
      assert (before + after)[..|before + after| - 1] == before + after[..n];
      RunStateFromCut(s, before, after[..n]);
      RunFromCut(s, before, after[..n]);
    }
  }
}
