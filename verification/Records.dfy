/** The entities the store keeps, the commands the Raft log carries and the
    whole state of one replica (backend/internal/store). */
module Records {

  datatype Option<+T> = None | Some(value: T)

  /** A Go slice. Nil and empty are different values, and JSON keeps them apart
      unless the field is tagged `omitempty`. */
  datatype Slice<+T> = Nil | Of(elems: seq<T>) {
    function Elems(): seq<T> {
      if Nil? then [] else elems
    }
  }

  type Byte = b: int | 0 <= b < 256

  /** A json.RawMessage, already normalised. Decoding `null` into a Go string
      succeeds and leaves it empty. */
  datatype Raw = RawString(text: string) | RawNull | RawOther(text: string) {
    function AsString(): Option<string> {
      match this
      case RawString(t) => Some(t)
      case RawNull => Some("")
      case RawOther(_) => None
    }
  }

  datatype Condition = Condition(
    attribute: string, op: string, values: Slice<Raw>, negate: bool,
    combine: string, conditions: Slice<Condition>)

  datatype Weight = Weight(variation: string, weight: int)

  datatype Rollout = Rollout(bucketBy: string, weights: Slice<Weight>)

  datatype Serve = Serve(variation: string, rollout: Option<Rollout>)

  datatype Variation = Variation(id: string, value: Raw)

  datatype Rule = Rule(
    id: string, description: string, combine: string,
    conditions: Slice<Condition>, serve: Serve)

  datatype Flag = Flag(
    schemaVersion: int, environmentId: string, key: string, kind: string,
    enabled: bool, revision: nat, evaluatorLevel: int, salt: string,
    variations: Slice<Variation>, offVariation: string, rules: Slice<Rule>,
    fallthrough: Serve)

  datatype SegmentRule = SegmentRule(id: string, combine: string, conditions: Slice<Condition>)

  datatype Segment = Segment(
    schemaVersion: int, environmentId: string, key: string, name: string,
    revision: nat, evaluatorLevel: int, included: Slice<string>,
    excluded: Slice<string>, rules: Slice<SegmentRule>)

  datatype User = User(
    id: string, username: string, passwordHash: Slice<Byte>,
    groupIds: Slice<string>, active: bool, version: nat)

  datatype Group = Group(
    id: string, name: string, permissions: Slice<string>,
    environmentIds: Slice<string>, system: bool, version: nat)

  datatype AuditEntry = AuditEntry(
    id: nat, timestamp: int, actorId: string, actorType: string, action: string,
    targetType: string, targetId: string, before: string, after: string,
    success: bool, statusCode: int, error: string)

  datatype Environment = Environment(id: string, name: string, order: int, version: nat, color: string)

  datatype Credential = Credential(
    id: string, name: string, clientSecretHash: Slice<Byte>,
    environmentId: string, scopes: Slice<string>, active: bool, version: nat)

  /** The seven maps of one replica. */
  datatype State = State(
    flags: map<string, Flag>,
    segments: map<string, Segment>,
    users: map<string, User>,
    groups: map<string, Group>,
    audits: map<nat, AuditEntry>,
    environments: map<string, Environment>,
    credentials: map<string, Credential>)

  const EMPTY_STATE := State(map[], map[], map[], map[], map[], map[], map[])

  /** What a command asks of one entity; the payload is always there. */
  datatype Op<+T> =
    | Set(value: T)
    | SetBatch(values: seq<T>)
    | Append(entry: T)
    | Delete(key: string)
    | UnknownOp(name: string)

  datatype Command =
    | FlagCommand(flagOp: Op<Flag>)
    | SegmentCommand(segmentOp: Op<Segment>)
    | UserCommand(userOp: Op<User>)
    | GroupCommand(groupOp: Op<Group>)
    | AuditCommand(auditOp: Op<AuditEntry>)
    | EnvironmentCommand(environmentOp: Op<Environment>)
    | CredentialCommand(credentialOp: Op<Credential>)
    | UnknownEntity(entity: string)
    | Undecodable

  /** A committed log entry. */
  datatype Entry = Entry(index: nat, command: Command)

  datatype Error =
    | ErrDecodeCommand
    | ErrUnknownEntity
    | ErrUnknownOp
    | ErrUnknownEnvironment
    | ErrUnknownFlagType
    | ErrFlagTypeChanged
    | ErrFlagExists
    | ErrSegmentLimitExceeded
    | ErrSegmentUsesInSegment
    | ErrSegmentInUse
    | ErrUsernameTaken
    | ErrLastAdmin
    | ErrProtectedSystemGroup
    | ErrLastEnvironment
    | ErrEnvironmentHasFlags
    | ErrEnvironmentHasCredentials
    | ErrEnvironmentHasSegments
    | ErrNotLeader

  /** What Apply returns: Go's nil, the stored record or records, or an error. */
  datatype Response =
    | Done
    | StoredFlag(flag: Flag)
    | StoredFlags(flags: seq<Flag>)
    | StoredSegment(segment: Segment)
    | StoredUser(user: User)
    | StoredGroup(group: Group)
    | StoredAudit(audit: AuditEntry)
    | StoredEnvironment(environment: Environment)
    | StoredCredential(credential: Credential)
    | Failed(error: Error)

  datatype Outcome = Outcome(state: State, response: Response)
}
