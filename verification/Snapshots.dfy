/** Snapshots: writing a whole state as one document, reading it back, and
    replaying the rest of the log (Snapshot, Persist and Restore in
    backend/internal/store/fsm.go). */
module Snapshots {
  import opened Records
  import opened Machine
  import opened Invariants
  import opened Documents

  // ----- the document -----

  datatype SnapshotDoc = SnapshotDoc(
    flags: Field<map<string, FlagDoc>>,
    segments: Field<map<string, SegmentDoc>>,
    users: Field<map<string, UserDoc>>,
    groups: Field<map<string, GroupDoc>>,
    audits: Field<map<nat, AuditDoc>>,
    environments: Field<map<string, Environment>>,
    credentials: Field<map<string, CredentialDoc>>)

  /** What Restore finds: nothing at all, text that does not decode, or a document. */
  datatype SnapshotFile = EmptyFile | Garbled | Document(doc: SnapshotDoc)

  datatype RestoreError = ErrDecodeSnapshot | ErrPreUserGroupFormat | ErrPreEnvironmentFlags | ErrPreDefinitionFlags

  function MapValues<K, A, B>(f: A -> B, m: map<K, A>): map<K, B> {
    map k | k in m :: f(m[k])
  }

  /** A map field; absent and null are both an empty map in the end. */
  function MapOf<K, V>(f: Field<map<K, V>>): map<K, V> {
    if f.Present? then f.value else map[]
  }

  function EncodeState(s: State): SnapshotDoc {
    SnapshotDoc(
      Present(MapValues(EncodeFlag, s.flags)), Present(MapValues(EncodeSegment, s.segments)),
      Present(MapValues(EncodeUser, s.users)), Present(MapValues(EncodeGroup, s.groups)),
      Present(MapValues(EncodeAudit, s.audits)), Present(s.environments),
      Present(MapValues(EncodeCredential, s.credentials)))
  }

  function DecodeState(d: SnapshotDoc): State {
    State(
      MapValues(DecodeFlag, MapOf(d.flags)), MapValues(DecodeSegment, MapOf(d.segments)),
      MapValues(DecodeUser, MapOf(d.users)), MapValues(DecodeGroup, MapOf(d.groups)),
      MapValues(DecodeAudit, MapOf(d.audits)), MapOf(d.environments),
      MapValues(DecodeCredential, MapOf(d.credentials)))
  }

  /** Neither of the two legacy flag shapes. */
  predicate CurrentFlag(d: FlagDoc) {
    Text(d.environmentId) != "" && Text(d.kind) != ""
  }

  predicate HasKnownFormat(d: SnapshotDoc) {
    !d.flags.Absent? || !d.users.Absent? || !d.groups.Absent?
  }

  predicate Acceptable(file: SnapshotFile) {
    match file
    case EmptyFile => true
    case Garbled => false
    case Document(d) =>
      HasKnownFormat(d) && forall k :: k in MapOf(d.flags) ==> CurrentFlag(MapOf(d.flags)[k])
  }

  /** The state Restore installs when it accepts. */
  function RestoredState(file: SnapshotFile): State {
    if file.Document? then DecodeState(file.doc) else EMPTY_STATE
  }

  /** A field that is there and says something. */
  predicate Says(f: Field<string>) {
    f.Present? && f.value != ""
  }

  /** What is refused, on the fields of the document: one without any of the keys
      for flags, users and groups, and one with a flag that has no environment or
      no type. */
  lemma DocumentIsRefusedExactlyWhen(d: SnapshotDoc)
    ensures !Acceptable(Document(d)) <==>
      || (d.flags.Absent? && d.users.Absent? && d.groups.Absent?)
      || (d.flags.Present? && exists k :: k in d.flags.value && !(Says(d.flags.value[k].environmentId) && Says(d.flags.value[k].kind)))
  {
    if d.flags.Present? {
      forall k | k in d.flags.value
        ensures CurrentFlag(MapOf(d.flags)[k]) <==> Says(d.flags.value[k].environmentId) && Says(d.flags.value[k].kind)
      {
      }
    }
  }

  /** What an accepted document of whatever age is read as: every record under
      its own key and as the document says, field by field, and an empty map for
      each one that is missing or null. */
  lemma DocumentIsReadAsItSays(d: SnapshotDoc, s: State)
    requires s == RestoredState(Document(d)) && Acceptable(Document(d))
    ensures ReadFrom(s.flags, d.flags, FlagIs) && ReadFrom(s.segments, d.segments, SegmentIs)
    ensures ReadFrom(s.users, d.users, UserIs) && ReadFrom(s.groups, d.groups, GroupIs)
    ensures ReadFrom(s.audits, d.audits, AuditIs) && ReadFrom(s.credentials, d.credentials, CredentialIs)
    ensures s.environments == if d.environments.Present? then d.environments.value else map[]
  {
    hide FlagIs, SegmentIs, UserIs, GroupIs, AuditIs, CredentialIs, ReadFrom, MapValues;
    RecordsAreRead();
    MapIsRead(d.flags, DecodeFlag, FlagIs);
    MapIsRead(d.segments, DecodeSegment, SegmentIs);
    MapIsRead(d.users, DecodeUser, UserIs);
    MapIsRead(d.groups, DecodeGroup, GroupIs);
    MapIsRead(d.audits, DecodeAudit, AuditIs);
    MapIsRead(d.credentials, DecodeCredential, CredentialIs);
  }

  lemma RecordsAreRead()
    ensures (forall f :: FlagIs(DecodeFlag(f), f)) && (forall g :: SegmentIs(DecodeSegment(g), g))
    ensures (forall u :: UserIs(DecodeUser(u), u)) && (forall g :: GroupIs(DecodeGroup(g), g))
    ensures (forall a :: AuditIs(DecodeAudit(a), a)) && (forall c :: CredentialIs(DecodeCredential(c), c))
  {
    hide FlagIs, DecodeFlag, SegmentIs, DecodeSegment;
    forall f ensures FlagIs(DecodeFlag(f), f) { FlagIsRead(f); }
    forall g ensures SegmentIs(DecodeSegment(g), g) { SegmentIsRead(g); }
  }

  ghost predicate ReadFrom<K(!new), V, D>(m: map<K, V>, field: Field<map<K, D>>, same: (V, D) -> bool) {
    && (forall k :: k in m <==> field.Present? && k in field.value)
    && (forall k :: k in m ==> same(m[k], field.value[k]))
  }

  lemma MapIsRead<K(!new), V, D(!new)>(field: Field<map<K, D>>, decode: D -> V, same: (V, D) -> bool)
    requires forall d :: same(decode(d), d)
    ensures ReadFrom(MapValues(decode, MapOf(field)), field, same)
  {
  }

  function Persisted(s: State): SnapshotFile {
    Document(EncodeState(s))
  }

  // ----- what a trip through JSON keeps -----

  predicate CanonicalState(s: State) {
    && (forall k :: k in s.flags ==> CanonicalFlag(s.flags[k]))
    && (forall k :: k in s.segments ==> CanonicalSegment(s.segments[k]))
    && (forall k :: k in s.users ==> CanonicalUser(s.users[k]))
    && (forall k :: k in s.groups ==> CanonicalGroup(s.groups[k]))
    && (forall k :: k in s.credentials ==> CanonicalCredential(s.credentials[k]))
  }

  lemma MapRoundTrip<K, A, B>(m: map<K, A>, encode: A -> B, decode: B -> A)
    ensures MapValues(decode, MapValues(encode, m)) == m <==> forall k :: k in m ==> decode(encode(m[k])) == m[k]
  {
  }

  lemma FlagsRoundTrip(m: map<string, Flag>)
    ensures MapValues(DecodeFlag, MapValues(EncodeFlag, m)) == m <==> forall k :: k in m ==> CanonicalFlag(m[k])
  {
    MapRoundTrip(m, EncodeFlag, DecodeFlag);
    forall k | k in m ensures DecodeFlag(EncodeFlag(m[k])) == m[k] <==> CanonicalFlag(m[k]) { FlagRoundTrip(m[k]); }
  }

  lemma SegmentsRoundTrip(m: map<string, Segment>)
    ensures MapValues(DecodeSegment, MapValues(EncodeSegment, m)) == m <==> forall k :: k in m ==> CanonicalSegment(m[k])
  {
    MapRoundTrip(m, EncodeSegment, DecodeSegment);
    forall k | k in m ensures DecodeSegment(EncodeSegment(m[k])) == m[k] <==> CanonicalSegment(m[k]) { SegmentRoundTrip(m[k]); }
  }

  lemma UsersRoundTrip(m: map<string, User>)
    ensures MapValues(DecodeUser, MapValues(EncodeUser, m)) == m <==> forall k :: k in m ==> CanonicalUser(m[k])
  {
    MapRoundTrip(m, EncodeUser, DecodeUser);
  }

  lemma GroupsRoundTrip(m: map<string, Group>)
    ensures MapValues(DecodeGroup, MapValues(EncodeGroup, m)) == m <==> forall k :: k in m ==> CanonicalGroup(m[k])
  {
    MapRoundTrip(m, EncodeGroup, DecodeGroup);
  }

  lemma CredentialsRoundTrip(m: map<string, Credential>)
    ensures MapValues(DecodeCredential, MapValues(EncodeCredential, m)) == m <==> forall k :: k in m ==> CanonicalCredential(m[k])
  {
    MapRoundTrip(m, EncodeCredential, DecodeCredential);
  }

  /** A state survives Persist and Restore exactly when no `omitempty` slice in
      it is empty without being nil. */
  lemma StateRoundTrip(s: State)
    ensures RestoredState(Persisted(s)) == s <==> CanonicalState(s)
  {
    FlagsRoundTrip(s.flags);
    SegmentsRoundTrip(s.segments);
    UsersRoundTrip(s.users);
    GroupsRoundTrip(s.groups);
    CredentialsRoundTrip(s.credentials);
    MapRoundTrip(s.audits, EncodeAudit, DecodeAudit);
  }

  // ----- commands travel as JSON too -----

  function MapOp<A, B>(f: A -> B, op: Op<A>): Op<B> {
    match op
    case Set(v) => Set(f(v))
    case SetBatch(vs) => SetBatch(MapSeq(f, vs))
    case Append(v) => Append(f(v))
    case Delete(k) => Delete(k)
    case UnknownOp(n) => UnknownOp(n)
  }

  function ReceivedFlag(f: Flag): Flag { DecodeFlag(EncodeFlag(f)) }
  function ReceivedSegment(g: Segment): Segment { DecodeSegment(EncodeSegment(g)) }
  function ReceivedUser(u: User): User { DecodeUser(EncodeUser(u)) }
  function ReceivedGroup(g: Group): Group { DecodeGroup(EncodeGroup(g)) }
  function ReceivedAudit(a: AuditEntry): AuditEntry { DecodeAudit(EncodeAudit(a)) }
  function ReceivedCredential(c: Credential): Credential { DecodeCredential(EncodeCredential(c)) }

  /** A submitted command as Apply finds it: marshalled into the log entry and
      unmarshalled from it. */
  function Received(c: Command): Command {
    match c
    case FlagCommand(op) => FlagCommand(MapOp(ReceivedFlag, op))
    case SegmentCommand(op) => SegmentCommand(MapOp(ReceivedSegment, op))
    case UserCommand(op) => UserCommand(MapOp(ReceivedUser, op))
    case GroupCommand(op) => GroupCommand(MapOp(ReceivedGroup, op))
    case AuditCommand(op) => AuditCommand(MapOp(ReceivedAudit, op))
    case CredentialCommand(op) => CredentialCommand(MapOp(ReceivedCredential, op))
    case _ => c
  }

  /** The log the replicas apply when these commands were submitted. */
  function Committed(submitted: seq<Entry>): seq<Entry> {
    seq(|submitted|, i requires 0 <= i < |submitted| => Entry(submitted[i].index, Received(submitted[i].command)))
  }

  ghost predicate OpIs<T>(op: Op<T>, p: T -> bool) {
    match op
    case Set(v) => p(v)
    case SetBatch(vs) => forall i :: 0 <= i < |vs| ==> p(vs[i])
    case Append(v) => p(v)
    case _ => true
  }

  ghost predicate CanonicalCommand(c: Command) {
    match c
    case FlagCommand(op) => OpIs(op, CanonicalFlag)
    case SegmentCommand(op) => OpIs(op, CanonicalSegment)
    case UserCommand(op) => OpIs(op, CanonicalUser)
    case GroupCommand(op) => OpIs(op, CanonicalGroup)
    case CredentialCommand(op) => OpIs(op, CanonicalCredential)
    case _ => true
  }

  lemma MappedOpIs<A(!new), B>(f: A -> B, op: Op<A>, p: B -> bool)
    requires forall v :: p(f(v))
    ensures OpIs(MapOp(f, op), p)
  {
  }

  lemma ReceivedIsCanonical(c: Command)
    ensures CanonicalCommand(Received(c))
  {
    match c
    case FlagCommand(op) =>
      forall f ensures CanonicalFlag(ReceivedFlag(f)) { FlagRoundTrip(f); }
      MappedOpIs(ReceivedFlag, op, CanonicalFlag);
    case SegmentCommand(op) =>
      forall g ensures CanonicalSegment(ReceivedSegment(g)) { SegmentRoundTrip(g); }
      MappedOpIs(ReceivedSegment, op, CanonicalSegment);
    case UserCommand(op) => MappedOpIs(ReceivedUser, op, CanonicalUser);
    case GroupCommand(op) => MappedOpIs(ReceivedGroup, op, CanonicalGroup);
    case CredentialCommand(op) => MappedOpIs(ReceivedCredential, op, CanonicalCredential);
    case _ =>
  }

  lemma ReceivedIsSameExactlyWhenCanonical()
    ensures forall f :: ReceivedFlag(f) == f <==> CanonicalFlag(f)
    ensures forall g :: ReceivedSegment(g) == g <==> CanonicalSegment(g)
    ensures forall u :: ReceivedUser(u) == u <==> CanonicalUser(u)
    ensures forall g :: ReceivedGroup(g) == g <==> CanonicalGroup(g)
    ensures forall c :: ReceivedCredential(c) == c <==> CanonicalCredential(c)
    ensures forall a :: ReceivedAudit(a) == a
  {
    forall f ensures ReceivedFlag(f) == f <==> CanonicalFlag(f) { FlagRoundTrip(f); }
    forall g ensures ReceivedSegment(g) == g <==> CanonicalSegment(g) { SegmentRoundTrip(g); }
  }

  /** A command arrives as it was submitted exactly when its payload is
      canonical. */
  lemma CanonicalCommandsArrive(c: Command)
    ensures Received(c) == c <==> CanonicalCommand(c)
  {
    hide ReceivedFlag, ReceivedSegment, ReceivedUser, ReceivedGroup, ReceivedCredential, ReceivedAudit, MapOp, OpIs;
    ReceivedIsSameExactlyWhenCanonical();
    match c
    case FlagCommand(op) => MappedOpIsSame(ReceivedFlag, op, CanonicalFlag);
    case SegmentCommand(op) => MappedOpIsSame(ReceivedSegment, op, CanonicalSegment);
    case UserCommand(op) => MappedOpIsSame(ReceivedUser, op, CanonicalUser);
    case GroupCommand(op) => MappedOpIsSame(ReceivedGroup, op, CanonicalGroup);
    case CredentialCommand(op) => MappedOpIsSame(ReceivedCredential, op, CanonicalCredential);
    case AuditCommand(op) => MappedOpStays(ReceivedAudit, op);
    case _ =>
  }

  lemma MappedOpIsSame<A(!new)>(f: A -> A, op: Op<A>, p: A -> bool)
    requires forall v :: f(v) == v <==> p(v)
    ensures MapOp(f, op) == op <==> OpIs(op, p)
  {
    match op
    case SetBatch(vs) =>
      if MapSeq(f, vs) == vs {
        forall i | 0 <= i < |vs| ensures p(vs[i]) { assert MapSeq(f, vs)[i] == vs[i]; }
      }
    case _ =>
  }

  lemma MappedOpStays<A(!new)>(f: A -> A, op: Op<A>)
    requires forall v :: f(v) == v
    ensures MapOp(f, op) == op
  {
  }

  lemma CanonicalFlagStep(s: State, index: nat, op: Op<Flag>)
    requires CanonicalState(s) && OpIs(op, CanonicalFlag)
    ensures CanonicalState(ApplyFlag(s, index, op).state)
  {
    match op
    case SetBatch(flags) =>
      if BatchError(s, flags).None? {
        WriteAllContents(s.flags, flags, index);
        assert CanonicalState(s.(flags := WriteAll(s.flags, flags, index)));
      }
    case Set(flag) => assert CanonicalState(s.(flags := s.flags[FlagKey(flag) := StampFlag(flag, index)]));
    case Delete(key) => assert CanonicalState(s.(flags := s.flags - {key}));
    case _ =>
  }

  lemma CanonicalSegmentStep(s: State, index: nat, op: Op<Segment>)
    requires CanonicalState(s) && OpIs(op, CanonicalSegment)
    ensures CanonicalState(ApplySegment(s, index, op).state)
  {
    match op
    case Set(_) =>
    case Delete(key) => assert CanonicalState(s.(segments := s.segments - {key}));
    case _ =>
  }

  lemma CanonicalUserStep(s: State, index: nat, op: Op<User>)
    requires CanonicalState(s) && OpIs(op, CanonicalUser)
    ensures CanonicalState(ApplyUser(s, index, op).state)
  {
    match op
    case Set(user) => assert CanonicalState(s.(users := s.users[user.id := user.(version := index)]));
    case Delete(key) => assert CanonicalState(s.(users := s.users - {key}));
    case _ =>
  }

  lemma CanonicalGroupStep(s: State, index: nat, op: Op<Group>)
    requires CanonicalState(s) && OpIs(op, CanonicalGroup)
    ensures CanonicalState(ApplyGroup(s, index, op).state)
  {
    match op
    case Set(group) => assert CanonicalState(s.(groups := s.groups[group.id := group.(version := index)]));
    case Delete(key) => assert CanonicalState(s.(groups := s.groups - {key}));
    case _ =>
  }

  lemma CanonicalCredentialStep(s: State, index: nat, op: Op<Credential>)
    requires CanonicalState(s) && OpIs(op, CanonicalCredential)
    ensures CanonicalState(ApplyCredential(s, index, op).state)
  {
    match op
    case Set(_) =>
    case Delete(key) => assert CanonicalState(s.(credentials := s.credentials - {key}));
    case _ =>
  }

  lemma CanonicalEnvironmentStep(s: State, index: nat, op: Op<Environment>)
    requires CanonicalState(s)
    ensures CanonicalState(ApplyEnvironment(s, index, op).state)
  {
  }

  lemma CanonicalAuditStep(s: State, index: nat, op: Op<AuditEntry>)
    requires CanonicalState(s)
    ensures CanonicalState(ApplyAudit(s, index, op).state)
  {
  }

  lemma CanonicalStep(s: State, e: Entry)
    requires CanonicalState(s) && CanonicalCommand(e.command)
    ensures CanonicalState(Step(s, e).state)
  {
    match e.command
    case FlagCommand(op) => CanonicalFlagStep(s, e.index, op); assert Step(s, e) == ApplyFlag(s, e.index, op);
    case SegmentCommand(op) => CanonicalSegmentStep(s, e.index, op); assert Step(s, e) == ApplySegment(s, e.index, op);
    case UserCommand(op) => CanonicalUserStep(s, e.index, op); assert Step(s, e) == ApplyUser(s, e.index, op);
    case GroupCommand(op) => CanonicalGroupStep(s, e.index, op); assert Step(s, e) == ApplyGroup(s, e.index, op);
    case CredentialCommand(op) => CanonicalCredentialStep(s, e.index, op); assert Step(s, e) == ApplyCredential(s, e.index, op);
    case EnvironmentCommand(op) => CanonicalEnvironmentStep(s, e.index, op); assert Step(s, e) == ApplyEnvironment(s, e.index, op);
    case AuditCommand(op) => CanonicalAuditStep(s, e.index, op); assert Step(s, e) == ApplyAudit(s, e.index, op);
    case _ => assert Step(s, e).state == s;
  }

  lemma {:induction false} CommittedRunsAreCanonical(submitted: seq<Entry>)
    ensures CanonicalState(Run(EMPTY_STATE, Committed(submitted)))
  {
    if submitted != [] {
      var n := |submitted| - 1;
      CommittedRunsAreCanonical(submitted[..n]);
      assert Committed(submitted)[..n] == Committed(submitted[..n]);
      ReceivedIsCanonical(submitted[n].command);
      CanonicalStep(Run(EMPTY_STATE, Committed(submitted[..n])), Committed(submitted)[n]);
    }
  }

  // ----- a snapshot is as good as the log before it -----

  lemma ReachableSnapshotIsAccepted(s: State, last: nat)
    requires Invariant(s, last)
    ensures Acceptable(Persisted(s))
  {
    var flags := MapOf(EncodeState(s).flags);
    forall k | k in flags ensures CurrentFlag(flags[k]) {
      assert flags[k] == EncodeFlag(s.flags[k]);
      assert FlagOk(s.environments.Keys, k, s.flags[k], last);
      assert IsEnvironmentId(s.flags[k].environmentId);
    }
  }

  ghost predicate KindsAreKnown(s: State) {
    forall k :: k in s.flags ==> IsKnownFlagType(s.flags[k].kind)
  }

  lemma FlagStepKnowsKinds(s: State, index: nat, op: Op<Flag>)
    requires KindsAreKnown(s)
    ensures KindsAreKnown(ApplyFlag(s, index, op).state)
  {
    match op
    case SetBatch(flags) =>
      CleanBatch(s, flags);
      WriteAllContents(s.flags, flags, index);
    case _ =>
  }

  lemma {:induction false} StoredKindsAreKnown(log: seq<Entry>, t: State)
    requires t == Run(EMPTY_STATE, log)
    ensures KindsAreKnown(t)
  {
    if log != [] {
      hide Step, ApplyFlag;
      var n := |log| - 1;
      var s := Run(EMPTY_STATE, log[..n]);
      StoredKindsAreKnown(log[..n], s);
      StepKnowsKinds(s, log[n], t);
    }
  }

  lemma StepKnowsKinds(s: State, e: Entry, t: State)
    requires KindsAreKnown(s) && t == Step(s, e).state
    ensures KindsAreKnown(t)
  {
    hide ApplyFlag;
    match e.command
    case FlagCommand(op) =>
      FlagStepKnowsKinds(s, e.index, op);
      assert Step(s, e) == ApplyFlag(s, e.index, op);
    case _ => OthersStay(s, e);
  }

  /** After any log whatever, Restore refuses the store's own snapshot exactly
      when some flag sits in the environment with the empty ID. */
  lemma SnapshotIsAcceptedExactlyWhen(log: seq<Entry>, s: State)
    requires s == Run(EMPTY_STATE, log)
    ensures Acceptable(Persisted(s)) <==> !HasFlags(s, "")
  {
    hide Run;
    StoredKindsAreKnown(log, s);
    var flags := MapOf(EncodeState(s).flags);
    assert flags.Keys == s.flags.Keys;
    forall k | k in flags ensures CurrentFlag(flags[k]) <==> s.flags[k].environmentId != "" {
      assert flags[k] == EncodeFlag(s.flags[k]);
      assert IsKnownFlagType(s.flags[k].kind);
    }
  }

  /** Cut any log whatever anywhere: the snapshot taken there restores the very
      state it was taken of, replaying the rest of the log on it gives the state
      and the responses of replaying the whole log, and it is accepted exactly
      when no flag sits in an environment with the empty ID. */
  lemma SnapshotEqualsReplay(submitted: seq<Entry>, cut: nat)
    requires cut <= |submitted|
    ensures var log := Committed(submitted);
      var s := Run(EMPTY_STATE, log[..cut]);
      && (Acceptable(Persisted(s)) <==> !HasFlags(s, ""))
      && RestoredState(Persisted(s)) == s
      && Run(RestoredState(Persisted(s)), log[cut..]) == Run(EMPTY_STATE, log)
      && Responses(RestoredState(Persisted(s)), log[cut..]) == Responses(EMPTY_STATE, log)[cut..]
  {
    hide Step, Acceptable, RestoredState, Persisted;
    var log := Committed(submitted);
    var s := Run(EMPTY_STATE, log[..cut]);
    SnapshotIsAcceptedExactlyWhen(log[..cut], s);
    assert log[..cut] == Committed(submitted[..cut]);
    CommittedRunsAreCanonical(submitted[..cut]);
    StateRoundTrip(s);
    assert log == log[..cut] + log[cut..];
    RunFromCut(EMPTY_STATE, log[..cut], log[cut..]);
  }

  /** What NewID guarantees of every environment that is created. */
  predicate NamesItsEnvironment(c: Command) {
    c.EnvironmentCommand? && c.environmentOp.Set? ==> c.environmentOp.value.id != ""
  }

  lemma {:induction false} NoFlagWithoutEnvironment(log: seq<Entry>, t: State)
    requires (forall i :: 0 <= i < |log| ==> NamesItsEnvironment(log[i].command)) && t == Run(EMPTY_STATE, log)
    ensures "" !in t.environments && !HasFlags(t, "")
  {
    if log != [] {
      hide Step, HasFlags, NamesItsEnvironment;
      var n := |log| - 1;
      var s := Run(EMPTY_STATE, log[..n]);
      NoFlagWithoutEnvironment(log[..n], s);
      StepNamesNoEmpty(s, log[n], t);
    }
  }

  lemma StepNamesNoEmpty(s: State, e: Entry, t: State)
    requires "" !in s.environments && !HasFlags(s, "")
    requires NamesItsEnvironment(e.command) && t == Step(s, e).state
    ensures "" !in t.environments && !HasFlags(t, "")
  {
    match e.command
    case FlagCommand(op) =>
      FlagStepNamesNoEmpty(s, e.index, op);
      assert Step(s, e) == ApplyFlag(s, e.index, op);
      OthersStay(s, e);
    case EnvironmentCommand(op) =>
      assert Step(s, e) == ApplyEnvironment(s, e.index, op);
      OthersStay(s, e);
    case _ => OthersStay(s, e);
  }

  lemma FlagStepNamesNoEmpty(s: State, index: nat, op: Op<Flag>)
    requires "" !in s.environments && !HasFlags(s, "")
    ensures !HasFlags(ApplyFlag(s, index, op).state, "")
  {
    match op
    case SetBatch(flags) =>
      CleanBatch(s, flags);
      WriteAllContents(s.flags, flags, index);
    case _ =>
  }

  /** So with the IDs that NewID gives every snapshot is accepted. */
  lemma NamedEnvironmentsAreAccepted(log: seq<Entry>)
    requires forall i :: 0 <= i < |log| ==> NamesItsEnvironment(log[i].command)
    ensures Acceptable(Persisted(Run(EMPTY_STATE, log)))
  {
    hide Run, Acceptable, Persisted, NamesItsEnvironment;
    NoFlagWithoutEnvironment(log, Run(EMPTY_STATE, log));
    SnapshotIsAcceptedExactlyWhen(log, Run(EMPTY_STATE, log));
  }

  /** Why environment IDs must not be empty: after an environment with ID "" a
      flag in it is stored, and the snapshot is refused as a legacy one. */
  lemma EmptyEnvironmentIdIsRefused(environment: Environment, flag: Flag)
    requires environment.id == "" && flag.environmentId == "" && flag.kind == "boolean"
    ensures var log := [Entry(1, EnvironmentCommand(Set(environment))), Entry(2, FlagCommand(Set(flag)))];
      && !Responses(EMPTY_STATE, log)[1].Failed?
      && !Acceptable(Persisted(Run(EMPTY_STATE, log)))
  {
    var first := Entry(1, EnvironmentCommand(Set(environment)));
    var second := Entry(2, FlagCommand(Set(flag)));
    var log := [first, second];
    assert log[..1] == [first] && log[..1][..0] == [];
    var s := Step(EMPTY_STATE, first).state;
    assert Run(EMPTY_STATE, log[..1]) == s;
    assert "" in s.environments;
    var t := Step(s, second).state;
    assert Run(EMPTY_STATE, log) == t;
    assert FlagKey(flag) in t.flags;
    assert MapOf(EncodeState(t).flags)[FlagKey(flag)] == EncodeFlag(StampFlag(flag, 2));
  }
}
