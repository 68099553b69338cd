/** One replica: seven maps updated in place, one committed entry at a time.
    Maps are walked in arbitrary order, as Go does; every method is proved
    against the state machine as a function. */
module Replica {
  import opened Records
  import opened Conditions
  import opened Machine
  import opened Invariants
  import opened Listing
  import opened Documents
  import opened Snapshots

  /** A scan that stops at the first hit, in arbitrary order. */
  method AnyValue<K, V>(m: map<K, V>, p: (K, V) -> bool) returns (found: bool)
    ensures found <==> exists k :: k in m && p(k, m[k])
  {
    var rest := m.Keys;
    while rest != {}
      invariant rest <= m.Keys
      invariant forall k :: k in m.Keys - rest ==> !p(k, m[k])
    {
      var k :| k in rest;
      if p(k, m[k]) {
        return true;
      }
      rest := rest - {k};
    }
    return false;
  }

  /** What a lookup by username may return: any user with that name. */
  ghost predicate IsHit(s: State, username: string, hit: Option<User>) {
    match hit
    case None => forall id :: id in s.users ==> s.users[id].username != username
    case Some(u) => u.username == username && exists id :: id in s.users && s.users[id] == u
  }

  const BY_FLAG_KEY: (Flag, Flag) -> bool := (a: Flag, b: Flag) => StringLess(a.key, b.key)
  const BY_SEGMENT_KEY: (Segment, Segment) -> bool := (a: Segment, b: Segment) => StringLess(a.key, b.key)
  const BY_ORDER: (Environment, Environment) -> bool :=
    (a: Environment, b: Environment) => if a.order != b.order then a.order < b.order else StringLess(a.id, b.id)
  const NEWEST_FIRST: (AuditEntry, AuditEntry) -> bool := (a: AuditEntry, b: AuditEntry) => a.id > b.id

  class Fsm {
    var flags: map<string, Flag>
    var segments: map<string, Segment>
    var users: map<string, User>
    var groups: map<string, Group>
    var audits: map<nat, AuditEntry>
    var environments: map<string, Environment>
    var credentials: map<string, Credential>

    /** The replica's state as a value. */
    ghost function Abs(): State
      reads this
    {
      State(flags, segments, users, groups, audits, environments, credentials)
    }

    constructor ()
      ensures Abs() == EMPTY_STATE
    {
      flags, segments, users, groups := map[], map[], map[], map[];
      audits, environments, credentials := map[], map[], map[];
    }

    // ----- scans -----

    method IsReferenced(environmentId: string, segmentKey: string) returns (found: bool)
      ensures found == SegmentReferenced(Abs(), environmentId, segmentKey)
    {
      found := AnyValue(flags, (k, f: Flag) => f.environmentId == environmentId && FlagNames(f, segmentKey));
    }

    method IsSoleAdmin(id: string) returns (sole: bool)
      ensures sole == IsSoleActiveAdmin(Abs(), id)
    {
      if id !in users || !IsActiveAdmin(users[id]) {
        return false;
      }
      var another := AnyValue(users, (other, u: User) => other != id && IsActiveAdmin(u));
      return !another;
    }

    /** getUserByUsername: the first hit of a scan in arbitrary order. */
    method GetUserByUsername(username: string) returns (hit: Option<User>)
      ensures IsHit(Abs(), username, hit)
    {
      var rest := users.Keys;
      while rest != {}
        invariant rest <= users.Keys
        invariant forall id :: id in users.Keys - rest ==> users[id].username != username
      {
        var id :| id in rest;
        if users[id].username == username {
          return Some(users[id]);
        }
        rest := rest - {id};
      }
      return None;
    }

    // ----- one entity at a time -----

    method ApplyFlagOp(index: nat, op: Op<Flag>) returns (r: Response)
      modifies this`flags
      ensures Outcome(Abs(), r) == ApplyFlag(old(Abs()), index, op)
    {
      match op
      case Set(flag) =>
        if flag.environmentId !in environments {
          return Failed(ErrUnknownEnvironment);
        }
        if !IsKnownFlagType(flag.kind) {
          return Failed(ErrUnknownFlagType);
        }
        if FlagKey(flag) in flags && flags[FlagKey(flag)].kind != flag.kind {
          return Failed(ErrFlagTypeChanged);
        }
        var stamped := StampFlag(flag, index);
        flags := flags[FlagKey(flag) := stamped];
        return StoredFlag(stamped);
      case SetBatch(batch) =>
        r := ApplyBatch(index, batch);
      case Delete(key) =>
        flags := flags - {key};
        return Done;
      case _ =>
        return Failed(ErrUnknownOp);
    }

    /** The error of the first bad flag of a batch, if there is one. */
    method ValidateBatch(batch: seq<Flag>) returns (error: Option<Error>)
      ensures error == BatchError(Abs(), batch)
    {
      for i := 0 to |batch|
        invariant forall j :: 0 <= j < i ==> BatchEntryError(Abs(), batch[j]).None?
      {
        var flag := batch[i];
        error :=
          if flag.environmentId !in environments then Some(ErrUnknownEnvironment)
          else if !IsKnownFlagType(flag.kind) then Some(ErrUnknownFlagType)
          else if FlagKey(flag) in flags then Some(ErrFlagExists)
          else None;
        if error.Some? {
          FirstBadFlag(Abs(), batch, i);
          return;
        }
      }
      CleanBatch(Abs(), batch);
      return None;
    }

    /** Validate the whole batch, then write it. */
    method ApplyBatch(index: nat, batch: seq<Flag>) returns (r: Response)
      modifies this`flags
      ensures Outcome(Abs(), r) == ApplyFlag(old(Abs()), index, SetBatch(batch))
    {
      var error := ValidateBatch(batch);
      if error.Some? {
        return Failed(error.value);
      }
      var applied := [];
      for i := 0 to |batch|
        invariant flags == WriteAll(old(flags), batch[..i], index)
        invariant applied == StampAll(batch[..i], index)
      {
        assert batch[..i + 1][..i] == batch[..i];
        var stamped := StampFlag(batch[i], index);
        flags := flags[FlagKey(batch[i]) := stamped];
        applied := applied + [stamped];
      }
      assert batch[..|batch|] == batch;
      return StoredFlags(applied);
    }

    method ApplySegmentOp(index: nat, op: Op<Segment>) returns (r: Response)
      modifies this`segments
      ensures Outcome(Abs(), r) == ApplySegment(old(Abs()), index, op)
    {
      match op
      case Set(segment) =>
        if segment.environmentId !in environments {
          return Failed(ErrUnknownEnvironment);
        }
        var error := SegmentError(segment);
        if error.Some? {
          return Failed(error.value);
        }
        var stamped := segment.(schemaVersion := SEGMENT_SCHEMA_VERSION, revision := index, evaluatorLevel := EVALUATOR_LEVEL);
        segments := segments[SegmentMapKey(segment) := stamped];
        return StoredSegment(stamped);
      case Delete(key) =>
        if key !in segments {
          return Done;
        }
        var used := IsReferenced(segments[key].environmentId, segments[key].key);
        if used {
          return Failed(ErrSegmentInUse);
        }
        segments := segments - {key};
        return Done;
      case _ =>
        return Failed(ErrUnknownOp);
    }

    method ApplyUserOp(index: nat, op: Op<User>) returns (r: Response)
      modifies this`users
      ensures Outcome(Abs(), r) == ApplyUser(old(Abs()), index, op)
    {
      match op
      case Set(user) =>
        var taken := AnyValue(users, (id, u: User) => id != user.id && u.username == user.username);
        if taken {
          return Failed(ErrUsernameTaken);
        }
        var sole := IsSoleAdmin(user.id);
        if sole && !IsActiveAdmin(user) {
          return Failed(ErrLastAdmin);
        }
        var stamped := user.(version := index);
        users := users[user.id := stamped];
        return StoredUser(stamped);
      case Delete(key) =>
        var sole := IsSoleAdmin(key);
        if sole {
          return Failed(ErrLastAdmin);
        }
        users := users - {key};
        return Done;
      case _ =>
        return Failed(ErrUnknownOp);
    }

    method ApplyGroupOp(index: nat, op: Op<Group>) returns (r: Response)
      modifies this`groups
      ensures Outcome(Abs(), r) == ApplyGroup(old(Abs()), index, op)
    {
      match op
      case Set(group) =>
        if group.id in groups && groups[group.id].system {
          return Failed(ErrProtectedSystemGroup);
        }
        var stamped := group.(version := index);
        groups := groups[group.id := stamped];
        return StoredGroup(stamped);
      case Delete(key) =>
        if key in groups && groups[key].system {
          return Failed(ErrProtectedSystemGroup);
        }
        groups := groups - {key};
        return Done;
      case _ =>
        return Failed(ErrUnknownOp);
    }

    method ApplyAuditOp(index: nat, op: Op<AuditEntry>) returns (r: Response)
      modifies this`audits
      ensures Outcome(Abs(), r) == ApplyAudit(old(Abs()), index, op)
    {
      match op
      case Append(entry) =>
        var stamped := entry.(id := index);
        audits := audits[stamped.id := stamped];
        return StoredAudit(stamped);
      case _ =>
        return Failed(ErrUnknownOp);
    }

    method ApplyEnvironmentOp(index: nat, op: Op<Environment>) returns (r: Response)
      modifies this`environments
      ensures Outcome(Abs(), r) == ApplyEnvironment(old(Abs()), index, op)
    {
      match op
      case Set(environment) =>
        var stamped := environment.(version := index);
        environments := environments[environment.id := stamped];
        return StoredEnvironment(stamped);
      case Delete(id) =>
        if id in environments && |environments| <= 1 {
          return Failed(ErrLastEnvironment);
        }
        var hasFlags := AnyValue(flags, (k, f: Flag) => f.environmentId == id);
        if hasFlags {
          return Failed(ErrEnvironmentHasFlags);
        }
        var hasCredentials := AnyValue(credentials, (k, c: Credential) => c.environmentId == id);
        if hasCredentials {
          return Failed(ErrEnvironmentHasCredentials);
        }
        var hasSegments := AnyValue(segments, (k, g: Segment) => g.environmentId == id);
        if hasSegments {
          return Failed(ErrEnvironmentHasSegments);
        }
        environments := environments - {id};
        return Done;
      case _ =>
        return Failed(ErrUnknownOp);
    }

    method ApplyCredentialOp(index: nat, op: Op<Credential>) returns (r: Response)
      modifies this`credentials
      ensures Outcome(Abs(), r) == ApplyCredential(old(Abs()), index, op)
    {
      match op
      case Set(credential) =>
        if credential.environmentId !in environments {
          return Failed(ErrUnknownEnvironment);
        }
        var stamped := credential.(version := index);
        credentials := credentials[credential.id := stamped];
        return StoredCredential(stamped);
      case Delete(key) =>
        credentials := credentials - {key};
        return Done;
      case _ =>
        return Failed(ErrUnknownOp);
    }

    /** Apply: one committed log entry. */
    method Apply(e: Entry) returns (r: Response)
      modifies this
      ensures Outcome(Abs(), r) == Step(old(Abs()), e)
    {
      match e.command
      case FlagCommand(op) => r := ApplyFlagOp(e.index, op);
      case SegmentCommand(op) => r := ApplySegmentOp(e.index, op);
      case UserCommand(op) => r := ApplyUserOp(e.index, op);
      case GroupCommand(op) => r := ApplyGroupOp(e.index, op);
      case AuditCommand(op) => r := ApplyAuditOp(e.index, op);
      case EnvironmentCommand(op) => r := ApplyEnvironmentOp(e.index, op);
      case CredentialCommand(op) => r := ApplyCredentialOp(e.index, op);
      case UnknownEntity(_) => r := Failed(ErrUnknownEntity);
      case Undecodable => r := Failed(ErrDecodeCommand);
    }

    /** A replica catching up on a log. */
    method Replay(log: seq<Entry>) returns (responses: seq<Response>)
      modifies this
      ensures Abs() == Run(old(Abs()), log)
      ensures responses == Responses(old(Abs()), log)
    {
      responses := [];
      ghost var s := Abs();
      for i := 0 to |log|
        invariant Abs() == Run(s, log[..i])
        invariant responses == Responses(s, log[..i])
      {
        assert log[..i + 1][..i] == log[..i];
        var r := Apply(log[i]);
        responses := responses + [r];
      }
      assert log[..|log|] == log;
    }

    // ----- listings -----

    method ListFlags(environmentId: string, ghost last: nat) returns (list: seq<Flag>)
      requires Invariant(Abs(), last)
      ensures IsListing(list, Kept(flags, (f: Flag) => f.environmentId == environmentId), BY_FLAG_KEY)
      ensures forall i, j :: 0 <= i < j < |list| ==> StringLess(list[i].key, list[j].key)
      ensures forall v :: v in list <==> exists k :: k in flags && flags[k] == v && v.environmentId == environmentId
    {
      FlagKeysSeparate(Abs(), last, environmentId);
      list := SortedValues(flags, (f: Flag) => f.environmentId == environmentId, BY_FLAG_KEY);
    }

    method ListSegments(environmentId: string, ghost last: nat) returns (list: seq<Segment>)
      requires Invariant(Abs(), last)
      ensures IsListing(list, Kept(segments, (g: Segment) => g.environmentId == environmentId), BY_SEGMENT_KEY)
      ensures forall i, j :: 0 <= i < j < |list| ==> StringLess(list[i].key, list[j].key)
      ensures forall v :: v in list <==> exists k :: k in segments && segments[k] == v && v.environmentId == environmentId
    {
      SegmentKeysSeparate(Abs(), last, environmentId);
      list := SortedValues(segments, (g: Segment) => g.environmentId == environmentId, BY_SEGMENT_KEY);
    }

    method ListEnvironments(ghost last: nat) returns (list: seq<Environment>)
      requires Invariant(Abs(), last)
      ensures IsListing(list, Kept(environments, (v: Environment) => true), BY_ORDER)
      ensures forall i, j :: 0 <= i < j < |list| ==> 
        list[i].order < list[j].order || (list[i].order == list[j].order && StringLess(list[i].id, list[j].id))
      ensures forall v :: v in list <==> exists k :: k in environments && environments[k] == v
    {
      EnvironmentsSeparate(Abs(), last);
      list := SortedValues(environments, (v: Environment) => true, BY_ORDER);
    }

    method ListAudits(matches: AuditEntry -> bool, ghost last: nat) returns (list: seq<AuditEntry>)
      requires AuditsOk(audits, last)
      ensures IsListing(list, Kept(audits, matches), NEWEST_FIRST)
      ensures forall i, j :: 0 <= i < j < |list| ==> list[i].id > list[j].id
      ensures forall v :: v in list <==> exists k :: k in audits && audits[k] == v && matches(v)
    {
      list := SortedValues(audits, matches, NEWEST_FIRST);
    }

    // ----- snapshots -----

    method Snapshot() returns (doc: SnapshotDoc)
      ensures Document(doc) == Persisted(Abs())
    {
      doc := SnapshotDoc(
        Present(MapValues(EncodeFlag, flags)), Present(MapValues(EncodeSegment, segments)),
        Present(MapValues(EncodeUser, users)), Present(MapValues(EncodeGroup, groups)),
        Present(MapValues(EncodeAudit, audits)), Present(environments),
        Present(MapValues(EncodeCredential, credentials)));
    }

    /** Restore: refuse what it cannot read or does not recognise, and otherwise
        replace all seven maps. Which of two legacy shapes is reported depends
        on the order of the map; whether the file is refused does not. */
    method Restore(file: SnapshotFile) returns (error: Option<RestoreError>)
      modifies this
      ensures error.None? <==> Acceptable(file)
      ensures Abs() == if error.None? then RestoredState(file) else old(Abs())
      ensures file.EmptyFile? ==> error.None? && Abs() == EMPTY_STATE
      ensures error == Some(ErrDecodeSnapshot) <==> file.Garbled?
      ensures error == Some(ErrPreUserGroupFormat) <==> (
        file.Document? && file.doc.flags.Absent? && file.doc.users.Absent? && file.doc.groups.Absent?)
      ensures error == Some(ErrPreEnvironmentFlags) ==> (
        && file.Document? && file.doc.flags.Present?
        && exists k :: k in file.doc.flags.value && !Says(file.doc.flags.value[k].environmentId))
      ensures error == Some(ErrPreDefinitionFlags) ==> (
        && file.Document? && file.doc.flags.Present?
        && exists k :: k in file.doc.flags.value
             && Says(file.doc.flags.value[k].environmentId) && !Says(file.doc.flags.value[k].kind))
    {
      var state := EMPTY_STATE;
      match file {
        case EmptyFile =>
        case Garbled =>
          return Some(ErrDecodeSnapshot);
        case Document(doc) =>
          if doc.flags.Absent? && doc.users.Absent? && doc.groups.Absent? {
            return Some(ErrPreUserGroupFormat);
          }
          var stored := MapOf(doc.flags);
          var rest := stored.Keys;
          while rest != {}
            invariant rest <= stored.Keys
            invariant forall k :: k in stored.Keys - rest ==> CurrentFlag(stored[k])
          {
            var k :| k in rest;
            if Text(stored[k].environmentId) == "" {
              return Some(ErrPreEnvironmentFlags);
            }
            if Text(stored[k].kind) == "" {
              return Some(ErrPreDefinitionFlags);
            }
            rest := rest - {k};
          }
          state := DecodeState(doc);
      }
      flags, segments, users, groups := state.flags, state.segments, state.users, state.groups;
      audits, environments, credentials := state.audits, state.environments, state.credentials;
      return None;
    }
  }

  lemma StringOrderFacts()
    ensures forall a, b :: StringLess(a, b) ==> !StringLess(b, a)
    ensures forall a, b, c :: StringLess(a, b) && StringLess(b, c) ==> StringLess(a, c)
  {
    forall a, b | StringLess(a, b) ensures !StringLess(b, a) { StringLessIsAsymmetric(a, b); }
    forall a, b, c | StringLess(a, b) && StringLess(b, c) ensures StringLess(a, c) { StringLessIsTransitive(a, b, c); }
  }

  lemma FlagKeysSeparate(s: State, last: nat, environmentId: string)
    requires Invariant(s, last)
    ensures Asymmetric(BY_FLAG_KEY) && Transitive(BY_FLAG_KEY)
    ensures Separates(s.flags, (f: Flag) => f.environmentId == environmentId, BY_FLAG_KEY)
  {
    StringOrderFacts();
    forall i, j | i in s.flags && j in s.flags && i != j
                  && s.flags[i].environmentId == environmentId && s.flags[j].environmentId == environmentId
      ensures BY_FLAG_KEY(s.flags[i], s.flags[j]) || BY_FLAG_KEY(s.flags[j], s.flags[i])
    {
      assert FlagOk(s.environments.Keys, i, s.flags[i], last) && FlagOk(s.environments.Keys, j, s.flags[j], last);
      StringLessIsTotal(s.flags[i].key, s.flags[j].key);
    }
  }

  lemma SegmentKeysSeparate(s: State, last: nat, environmentId: string)
    requires Invariant(s, last)
    ensures Asymmetric(BY_SEGMENT_KEY) && Transitive(BY_SEGMENT_KEY)
    ensures Separates(s.segments, (g: Segment) => g.environmentId == environmentId, BY_SEGMENT_KEY)
  {
    StringOrderFacts();
    forall i, j | i in s.segments && j in s.segments && i != j
                  && s.segments[i].environmentId == environmentId && s.segments[j].environmentId == environmentId
      ensures BY_SEGMENT_KEY(s.segments[i], s.segments[j]) || BY_SEGMENT_KEY(s.segments[j], s.segments[i])
    {
      assert SegmentOk(s.environments.Keys, i, s.segments[i], last) && SegmentOk(s.environments.Keys, j, s.segments[j], last);
      StringLessIsTotal(s.segments[i].key, s.segments[j].key);
    }
  }

  lemma EnvironmentsSeparate(s: State, last: nat)
    requires Invariant(s, last)
    ensures Asymmetric(BY_ORDER) && Transitive(BY_ORDER)
    ensures Separates(s.environments, (v: Environment) => true, BY_ORDER)
  {
    StringOrderFacts();
    forall i, j | i in s.environments && j in s.environments && i != j
      ensures BY_ORDER(s.environments[i], s.environments[j]) || BY_ORDER(s.environments[j], s.environments[i])
    {
      StringLessIsTotal(i, j);
    }
  }

  /** What a replica lists: the flags and segments of one environment, all
      environments, and the audit entries of one filter. */
  datatype Listings = Listings(
    flags: seq<Flag>, segments: seq<Segment>, environments: seq<Environment>, audits: seq<AuditEntry>)

  ghost predicate AreListings(l: Listings, s: State, environmentId: string, matches: AuditEntry -> bool) {
    && IsListing(l.flags, Kept(s.flags, (f: Flag) => f.environmentId == environmentId), BY_FLAG_KEY)
    && IsListing(l.segments, Kept(s.segments, (g: Segment) => g.environmentId == environmentId), BY_SEGMENT_KEY)
    && IsListing(l.environments, Kept(s.environments, (v: Environment) => true), BY_ORDER)
    && IsListing(l.audits, Kept(s.audits, matches), NEWEST_FIRST)
  }

  method ListEverything(fsm: Fsm, environmentId: string, matches: AuditEntry -> bool, ghost last: nat) returns (l: Listings)
    requires Invariant(fsm.Abs(), last)
    ensures AreListings(l, fsm.Abs(), environmentId, matches)
  {
    hide IsListing, Kept, AuditsOk;
    assert AuditsOk(fsm.audits, last);
    var flags := fsm.ListFlags(environmentId, last);
    var segments := fsm.ListSegments(environmentId, last);
    var environments := fsm.ListEnvironments(last);
    var audits := fsm.ListAudits(matches, last);
    return Listings(flags, segments, environments, audits);
  }

  /** A state has one listing of each kind. */
  lemma ListingsAreUnique(s: State, last: nat, environmentId: string, matches: AuditEntry -> bool, a: Listings, b: Listings)
    requires Invariant(s, last)
    requires AreListings(a, s, environmentId, matches) && AreListings(b, s, environmentId, matches)
    ensures a == b
  {
    hide Invariant, Kept;
    FlagKeysSeparate(s, last, environmentId);
    SegmentKeysSeparate(s, last, environmentId);
    EnvironmentsSeparate(s, last);
    ListingIsUnique(a.flags, b.flags, BY_FLAG_KEY);
    ListingIsUnique(a.segments, b.segments, BY_SEGMENT_KEY);
    ListingIsUnique(a.environments, b.environments, BY_ORDER);
    ListingIsUnique(a.audits, b.audits, NEWEST_FIRST);
  }

  /** Two replicas that apply the same log give the same responses, end in the
      same state and list the same things in the same order, whatever order
      either walks its maps in. */
  method TwoReplicasAgree(a: Fsm, b: Fsm, log: seq<Entry>, environmentId: string, matches: AuditEntry -> bool)
      returns (left: seq<Response>, right: seq<Response>, fromLeft: Listings, fromRight: Listings)
    requires a != b && a.Abs() == b.Abs() == EMPTY_STATE && IsLog(log, 0)
    modifies a, b
    ensures left == right == Responses(EMPTY_STATE, log)
    ensures a.Abs() == b.Abs() == Run(EMPTY_STATE, log)
    ensures AreListings(fromLeft, a.Abs(), environmentId, matches) && fromLeft == fromRight
  {
    hide Invariant, AreListings, Run, Responses;
    left := a.Replay(log);
    right := b.Replay(log);
    RunMakesProgress(EMPTY_STATE, 0, log);
    fromLeft := ListEverything(a, environmentId, matches, LastIndex(log, 0));
    fromRight := ListEverything(b, environmentId, matches, LastIndex(log, 0));
    ListingsAreUnique(a.Abs(), LastIndex(log, 0), environmentId, matches, fromLeft, fromRight);
  }

  /** In a reachable state a lookup by username has one possible answer. */
  lemma UsernameHitIsUnique(s: State, last: nat, username: string, a: Option<User>, b: Option<User>)
    requires Invariant(s, last) && IsHit(s, username, a) && IsHit(s, username, b)
    ensures a == b
  {
  }

  /** A replica restored from another's snapshot goes on exactly like it,
      whenever it accepts the snapshot at all. */
  method RestoredReplicaCatchesUp(submitted: seq<Entry>, cut: nat) returns (whole: Fsm, restored: Fsm)
    requires cut <= |submitted| && !HasFlags(Run(EMPTY_STATE, Committed(submitted)[..cut]), "")
    ensures whole.Abs() == restored.Abs() == Run(EMPTY_STATE, Committed(submitted))
  {
    var log := Committed(submitted);
    whole := new Fsm();
    var _ := whole.Replay(log[..cut]);
    var doc := whole.Snapshot();
    restored := new Fsm();
    SnapshotEqualsReplay(submitted, cut);
    var error := restored.Restore(Document(doc));
    var _ := restored.Replay(log[cut..]);
    var _ := whole.Replay(log[cut..]);
  }
}
