/** The JSON form of the stored records, field by field. A field is absent, null
    or present; Go leaves `omitempty` fields out when they are empty and reads
    an absent or null field as the zero value. Fields that are always written
    and never inspected by a decoder are plain values here. */
module Documents {
  import opened Records

  datatype Field<+T> = Absent | Null | Present(value: T)

  /** The same for a field that holds an array. */
  datatype ListField<+T> = NoList | NullList | Listed(items: seq<T>)

  // ----- field tags -----

  /** A string tagged `omitempty`. */
  function OmitText(text: string): Field<string> {
    if text == "" then Absent else Present(text)
  }

  function OmitFalse(b: bool): Field<bool> {
    if b then Present(true) else Absent
  }

  function Text(f: Field<string>): string {
    if f.Present? then f.value else ""
  }

  function Truth(f: Field<bool>): bool {
    f.Present? && f.value
  }

  /** A slice without `omitempty`: nil is written as null. */
  function List<T>(s: Slice<T>): ListField<T> {
    if s.Nil? then NullList else Listed(s.elems)
  }

  /** A slice tagged `omitempty`: nil and empty are both left out. */
  function OmitList<T>(s: Slice<T>): ListField<T> {
    if s.Elems() == [] then NoList else Listed(s.elems)
  }

  function SliceOf<T>(f: ListField<T>): Slice<T> {
    if f.Listed? then Of(f.items) else Nil
  }

  /** A slice that survives being left out when empty. */
  predicate NotEmpty<T(==)>(s: Slice<T>) {
    s.Of? ==> s.elems != []
  }

  function MapSeq<A, B>(f: A -> B, s: seq<A>): seq<B> {
    seq(|s|, i requires 0 <= i < |s| => f(s[i]))
  }

  function MapField<A, B>(f: A -> B, s: ListField<A>): ListField<B> {
    match s
    case Listed(v) => Listed(MapSeq(f, v))
    case NoList => NoList
    case NullList => NullList
  }

  // ----- conditions -----

  datatype ConditionDoc = ConditionDoc(
    attribute: Field<string>, op: Field<string>, values: ListField<Raw>, negate: Field<bool>,
    combine: Field<string>, conditions: ListField<ConditionDoc>)

  function EncodeConditions(cs: seq<Condition>): seq<ConditionDoc>
    decreases cs
  {
    if cs == [] then [] else
      [ConditionDoc(
         OmitText(cs[0].attribute), OmitText(cs[0].op), OmitList(cs[0].values), OmitFalse(cs[0].negate),
         OmitText(cs[0].combine),
         match cs[0].conditions
         case Nil => NoList
         case Of(children) => if children == [] then NoList else Listed(EncodeConditions(children)))]
      + EncodeConditions(cs[1..])
  }

  function DecodeCondition(d: ConditionDoc): Condition
    decreases d
  {
    Condition(
      Text(d.attribute), Text(d.op), SliceOf(d.values), Truth(d.negate), Text(d.combine),
      match d.conditions
      case Listed(children) => Of(DecodeConditions(children))
      case _ => Nil)
  }

  function DecodeConditions(ds: seq<ConditionDoc>): seq<Condition>
    decreases ds
  {
    if ds == [] then [] else [DecodeCondition(ds[0])] + DecodeConditions(ds[1..])
  }

  predicate CanonicalConditions(cs: seq<Condition>)
    decreases cs
  {
    cs != [] ==>
      && NotEmpty(cs[0].values)
      && NotEmpty(cs[0].conditions)
      && (match cs[0].conditions
          case Nil => true
          case Of(children) => CanonicalConditions(children))
      && CanonicalConditions(cs[1..])
  }

  /** A condition forest survives the trip through JSON exactly when no
      `omitempty` slice in it is empty but not nil; after one trip none is. */
  lemma {:induction false} ConditionsRoundTrip(cs: seq<Condition>)
    ensures DecodeConditions(EncodeConditions(cs)) == cs <==> CanonicalConditions(cs)
    ensures CanonicalConditions(DecodeConditions(EncodeConditions(cs)))
    ensures |DecodeConditions(EncodeConditions(cs))| == |cs|
    decreases cs
  {
    if cs != [] {
      var ds := EncodeConditions(cs);
      assert ds[1..] == EncodeConditions(cs[1..]);
      ConditionsRoundTrip(cs[1..]);
      match cs[0].conditions {
        case Nil =>
        case Of(children) => ConditionsRoundTrip(children);
      }
      var back := DecodeConditions(ds);
      assert back[1..] == DecodeConditions(EncodeConditions(cs[1..]));
      assert cs == [cs[0]] + cs[1..] && back == [back[0]] + back[1..];
    }
  }

  function ConditionsField(s: Slice<Condition>): ListField<ConditionDoc> {
    match s
    case Nil => NullList
    case Of(cs) => Listed(EncodeConditions(cs))
  }

  function ConditionsOf(f: ListField<ConditionDoc>): Slice<Condition> {
    match f
    case Listed(ds) => Of(DecodeConditions(ds))
    case _ => Nil
  }

  // ----- flags -----

  datatype RolloutDoc = RolloutDoc(bucketBy: Field<string>, weights: ListField<Weight>)

  datatype ServeDoc = ServeDoc(variation: Field<string>, rollout: Field<RolloutDoc>)

  datatype RuleDoc = RuleDoc(
    id: string, description: Field<string>, combine: Field<string>,
    conditions: ListField<ConditionDoc>, serve: ServeDoc)

  datatype FlagDoc = FlagDoc(
    schemaVersion: int, environmentId: Field<string>, key: string, kind: Field<string>, enabled: bool,
    revision: nat, evaluatorLevel: int, salt: string, variations: ListField<Variation>,
    offVariation: string, rules: ListField<RuleDoc>, fallthrough: ServeDoc)

  function EncodeServe(s: Serve): ServeDoc {
    ServeDoc(OmitText(s.variation),
             if s.rollout.None? then Absent
             else Present(RolloutDoc(OmitText(s.rollout.value.bucketBy), List(s.rollout.value.weights))))
  }

  function DecodeServe(d: ServeDoc): Serve {
    Serve(Text(d.variation),
          if d.rollout.Present? then Some(Rollout(Text(d.rollout.value.bucketBy), SliceOf(d.rollout.value.weights)))
          else None)
  }

  function EncodeRule(r: Rule): RuleDoc {
    RuleDoc(r.id, OmitText(r.description), OmitText(r.combine), ConditionsField(r.conditions), EncodeServe(r.serve))
  }

  function DecodeRule(d: RuleDoc): Rule {
    Rule(d.id, Text(d.description), Text(d.combine), ConditionsOf(d.conditions), DecodeServe(d.serve))
  }

  function EncodeFlag(f: Flag): FlagDoc {
    FlagDoc(f.schemaVersion, Present(f.environmentId), f.key, Present(f.kind), f.enabled, f.revision, f.evaluatorLevel,
            f.salt, List(f.variations), f.offVariation, MapField(EncodeRule, List(f.rules)), EncodeServe(f.fallthrough))
  }

  function DecodeFlag(d: FlagDoc): Flag {
    Flag(d.schemaVersion, Text(d.environmentId), d.key, Text(d.kind), d.enabled, d.revision, d.evaluatorLevel,
         d.salt, SliceOf(d.variations), d.offVariation, SliceOf(MapField(DecodeRule, d.rules)), DecodeServe(d.fallthrough))
  }

  predicate CanonicalRule(r: Rule) {
    CanonicalConditions(r.conditions.Elems())
  }

  predicate CanonicalFlag(f: Flag) {
    forall i :: 0 <= i < |f.rules.Elems()| ==> CanonicalRule(f.rules.Elems()[i])
  }

  lemma RuleRoundTrip(r: Rule)
    ensures DecodeRule(EncodeRule(r)) == r <==> CanonicalRule(r)
    ensures CanonicalRule(DecodeRule(EncodeRule(r)))
  {
    ConditionsRoundTrip(r.conditions.Elems());
  }

  lemma FlagRoundTrip(f: Flag)
    ensures DecodeFlag(EncodeFlag(f)) == f <==> CanonicalFlag(f)
    ensures CanonicalFlag(DecodeFlag(EncodeFlag(f)))
  {
    var back := DecodeFlag(EncodeFlag(f));
    assert back == f.(rules := back.rules);
    forall i | 0 <= i < |f.rules.Elems()|
      ensures back.rules.Elems()[i] == f.rules.Elems()[i] <==> CanonicalRule(f.rules.Elems()[i])
      ensures CanonicalRule(back.rules.Elems()[i])
    {
      RuleRoundTrip(f.rules.Elems()[i]);
    }
    assert back.rules == f.rules <==> back.rules.Elems() == f.rules.Elems();
  }

  // ----- segments -----

  datatype SegmentRuleDoc = SegmentRuleDoc(id: string, combine: Field<string>, conditions: ListField<ConditionDoc>)

  datatype SegmentDoc = SegmentDoc(
    schemaVersion: int, environmentId: string, key: string, name: string, revision: nat, evaluatorLevel: int,
    included: ListField<string>, excluded: ListField<string>, rules: ListField<SegmentRuleDoc>)

  function EncodeSegmentRule(r: SegmentRule): SegmentRuleDoc {
    SegmentRuleDoc(r.id, OmitText(r.combine), ConditionsField(r.conditions))
  }

  function DecodeSegmentRule(d: SegmentRuleDoc): SegmentRule {
    SegmentRule(d.id, Text(d.combine), ConditionsOf(d.conditions))
  }

  function EncodeSegment(s: Segment): SegmentDoc {
    SegmentDoc(s.schemaVersion, s.environmentId, s.key, s.name, s.revision, s.evaluatorLevel,
               List(s.included), List(s.excluded), MapField(EncodeSegmentRule, List(s.rules)))
  }

  function DecodeSegment(d: SegmentDoc): Segment {
    Segment(d.schemaVersion, d.environmentId, d.key, d.name, d.revision, d.evaluatorLevel,
            SliceOf(d.included), SliceOf(d.excluded), SliceOf(MapField(DecodeSegmentRule, d.rules)))
  }

  predicate CanonicalSegmentRule(r: SegmentRule) {
    CanonicalConditions(r.conditions.Elems())
  }

  predicate CanonicalSegment(s: Segment) {
    forall i :: 0 <= i < |s.rules.Elems()| ==> CanonicalSegmentRule(s.rules.Elems()[i])
  }

  lemma SegmentRuleRoundTrip(r: SegmentRule)
    ensures DecodeSegmentRule(EncodeSegmentRule(r)) == r <==> CanonicalSegmentRule(r)
    ensures CanonicalSegmentRule(DecodeSegmentRule(EncodeSegmentRule(r)))
  {
    ConditionsRoundTrip(r.conditions.Elems());
  }

  lemma SegmentRoundTrip(s: Segment)
    ensures DecodeSegment(EncodeSegment(s)) == s <==> CanonicalSegment(s)
    ensures CanonicalSegment(DecodeSegment(EncodeSegment(s)))
  {
    var back := DecodeSegment(EncodeSegment(s));
    assert back == s.(rules := back.rules);
    forall i | 0 <= i < |s.rules.Elems()|
      ensures back.rules.Elems()[i] == s.rules.Elems()[i] <==> CanonicalSegmentRule(s.rules.Elems()[i])
      ensures CanonicalSegmentRule(back.rules.Elems()[i])
    {
      SegmentRuleRoundTrip(s.rules.Elems()[i]);
    }
    assert back.rules == s.rules <==> back.rules.Elems() == s.rules.Elems();
  }

  // ----- users, groups, credentials, audit entries -----

  datatype UserDoc = UserDoc(
    id: string, username: string, passwordHash: ListField<Byte>, groupIds: ListField<string>, active: bool, version: nat)

  function EncodeUser(u: User): UserDoc {
    UserDoc(u.id, u.username, OmitList(u.passwordHash), OmitList(u.groupIds), u.active, u.version)
  }

  function DecodeUser(d: UserDoc): User {
    User(d.id, d.username, SliceOf(d.passwordHash), SliceOf(d.groupIds), d.active, d.version)
  }

  predicate CanonicalUser(u: User) {
    NotEmpty(u.passwordHash) && NotEmpty(u.groupIds)
  }

  datatype GroupDoc = GroupDoc(
    id: string, name: string, permissions: ListField<string>, environmentIds: ListField<string>, system: bool, version: nat)

  function EncodeGroup(g: Group): GroupDoc {
    GroupDoc(g.id, g.name, OmitList(g.permissions), OmitList(g.environmentIds), g.system, g.version)
  }

  function DecodeGroup(d: GroupDoc): Group {
    Group(d.id, d.name, SliceOf(d.permissions), SliceOf(d.environmentIds), d.system, d.version)
  }

  predicate CanonicalGroup(g: Group) {
    NotEmpty(g.permissions) && NotEmpty(g.environmentIds)
  }

  datatype CredentialDoc = CredentialDoc(
    id: string, name: string, clientSecretHash: ListField<Byte>, environmentId: string, scopes: ListField<string>,
    active: bool, version: nat)

  function EncodeCredential(c: Credential): CredentialDoc {
    CredentialDoc(c.id, c.name, OmitList(c.clientSecretHash), c.environmentId, OmitList(c.scopes), c.active, c.version)
  }

  function DecodeCredential(d: CredentialDoc): Credential {
    Credential(d.id, d.name, SliceOf(d.clientSecretHash), d.environmentId, SliceOf(d.scopes), d.active, d.version)
  }

  predicate CanonicalCredential(c: Credential) {
    NotEmpty(c.clientSecretHash) && NotEmpty(c.scopes)
  }

  datatype AuditDoc = AuditDoc(
    id: nat, timestamp: int, actorId: string, actorType: Field<string>, action: string, targetType: string,
    targetId: Field<string>, before: Field<string>, after: Field<string>, success: bool, statusCode: int,
    error: Field<string>)

  function EncodeAudit(a: AuditEntry): AuditDoc {
    AuditDoc(a.id, a.timestamp, a.actorId, OmitText(a.actorType), a.action, a.targetType, OmitText(a.targetId),
             OmitText(a.before), OmitText(a.after), a.success, a.statusCode, OmitText(a.error))
  }

  function DecodeAudit(d: AuditDoc): AuditEntry {
    AuditEntry(d.id, d.timestamp, d.actorId, Text(d.actorType), d.action, d.targetType, Text(d.targetId),
               Text(d.before), Text(d.after), d.success, d.statusCode, Text(d.error))
  }

  lemma SmallRecordsRoundTrip(u: User, g: Group, c: Credential, a: AuditEntry)
    ensures DecodeUser(EncodeUser(u)) == u <==> CanonicalUser(u)
    ensures DecodeGroup(EncodeGroup(g)) == g <==> CanonicalGroup(g)
    ensures DecodeCredential(EncodeCredential(c)) == c <==> CanonicalCredential(c)
    ensures DecodeAudit(EncodeAudit(a)) == a
  {
  }

  // ----- what a document says -----

  ghost predicate TextIs(text: string, f: Field<string>) {
    if f.Present? then text == f.value else text == ""
  }

  /** A slice is nil when its field is absent or null. */
  ghost predicate SliceIs<T>(s: Slice<T>, f: ListField<T>) {
    if f.Listed? then s == Of(f.items) else s == Nil
  }

  ghost predicate ConditionIs(c: Condition, d: ConditionDoc)
    decreases d
  {
    && TextIs(c.attribute, d.attribute) && TextIs(c.op, d.op) && SliceIs(c.values, d.values)
    && (c.negate <==> d.negate == Present(true)) && TextIs(c.combine, d.combine)
    && (match d.conditions
        case Listed(children) => c.conditions.Of? && ConditionsAre(c.conditions.elems, children)
        case _ => c.conditions == Nil)
  }

  ghost predicate ConditionsAre(cs: seq<Condition>, ds: seq<ConditionDoc>)
    decreases ds
  {
    |cs| == |ds| && forall i :: 0 <= i < |cs| ==> ConditionIs(cs[i], ds[i])
  }

  lemma {:induction false} ConditionIsRead(d: ConditionDoc)
    ensures ConditionIs(DecodeCondition(d), d)
    decreases d
  {
    match d.conditions
    case Listed(children) => ConditionsAreRead(children);
    case _ =>
  }

  /** Conditions are read as their documents say, group by group. */
  lemma {:induction false} ConditionsAreRead(ds: seq<ConditionDoc>)
    ensures ConditionsAre(DecodeConditions(ds), ds)
    decreases ds
  {
    hide ConditionIs, DecodeCondition;
    if ds != [] {
      ConditionIsRead(ds[0]);
      ConditionsAreRead(ds[1..]);
    }
  }

  ghost predicate ConditionSliceIs(s: Slice<Condition>, f: ListField<ConditionDoc>) {
    if f.Listed? then s.Of? && ConditionsAre(s.elems, f.items) else s == Nil
  }

  ghost predicate ServeIs(s: Serve, d: ServeDoc) {
    && TextIs(s.variation, d.variation)
    && (s.rollout.Some? <==> d.rollout.Present?)
    && (s.rollout.Some? ==>
          TextIs(s.rollout.value.bucketBy, d.rollout.value.bucketBy) && SliceIs(s.rollout.value.weights, d.rollout.value.weights))
  }

  ghost predicate RuleIs(r: Rule, d: RuleDoc) {
    && r.id == d.id && TextIs(r.description, d.description) && TextIs(r.combine, d.combine)
    && ConditionSliceIs(r.conditions, d.conditions) && ServeIs(r.serve, d.serve)
  }

  ghost predicate FlagIs(f: Flag, d: FlagDoc) {
    && f.schemaVersion == d.schemaVersion && TextIs(f.environmentId, d.environmentId) && f.key == d.key
    && TextIs(f.kind, d.kind) && f.enabled == d.enabled && f.revision == d.revision
    && f.evaluatorLevel == d.evaluatorLevel && f.salt == d.salt && SliceIs(f.variations, d.variations)
    && f.offVariation == d.offVariation && ServeIs(f.fallthrough, d.fallthrough)
    && (f.rules.Of? <==> d.rules.Listed?)
    && (d.rules.Listed? ==>
          |f.rules.elems| == |d.rules.items|
          && forall i :: 0 <= i < |d.rules.items| ==> RuleIs(f.rules.elems[i], d.rules.items[i]))
  }

  lemma FlagIsRead(d: FlagDoc)
    ensures FlagIs(DecodeFlag(d), d)
  {
    if d.rules.Listed? {
      forall i | 0 <= i < |d.rules.items| ensures RuleIs(DecodeRule(d.rules.items[i]), d.rules.items[i]) {
        RuleIsRead(d.rules.items[i]);
      }
    }
  }

  lemma RuleIsRead(d: RuleDoc)
    ensures RuleIs(DecodeRule(d), d)
  {
    if d.conditions.Listed? {
      ConditionsAreRead(d.conditions.items);
    }
  }

  ghost predicate SegmentRuleIs(r: SegmentRule, d: SegmentRuleDoc) {
    r.id == d.id && TextIs(r.combine, d.combine) && ConditionSliceIs(r.conditions, d.conditions)
  }

  ghost predicate SegmentIs(s: Segment, d: SegmentDoc) {
    && s.schemaVersion == d.schemaVersion && s.environmentId == d.environmentId && s.key == d.key && s.name == d.name
    && s.revision == d.revision && s.evaluatorLevel == d.evaluatorLevel
    && SliceIs(s.included, d.included) && SliceIs(s.excluded, d.excluded)
    && (s.rules.Of? <==> d.rules.Listed?)
    && (d.rules.Listed? ==>
          |s.rules.elems| == |d.rules.items|
          && forall i :: 0 <= i < |d.rules.items| ==> SegmentRuleIs(s.rules.elems[i], d.rules.items[i]))
  }

  lemma SegmentIsRead(d: SegmentDoc)
    ensures SegmentIs(DecodeSegment(d), d)
  {
    if d.rules.Listed? {
      forall i | 0 <= i < |d.rules.items| ensures SegmentRuleIs(DecodeSegmentRule(d.rules.items[i]), d.rules.items[i]) {
        if d.rules.items[i].conditions.Listed? {
          ConditionsAreRead(d.rules.items[i].conditions.items);
        }
      }
    }
  }

  ghost predicate UserIs(u: User, d: UserDoc) {
    && u.id == d.id && u.username == d.username && SliceIs(u.passwordHash, d.passwordHash)
    && SliceIs(u.groupIds, d.groupIds) && u.active == d.active && u.version == d.version
  }

  ghost predicate GroupIs(g: Group, d: GroupDoc) {
    && g.id == d.id && g.name == d.name && SliceIs(g.permissions, d.permissions)
    && SliceIs(g.environmentIds, d.environmentIds) && g.system == d.system && g.version == d.version
  }

  ghost predicate CredentialIs(c: Credential, d: CredentialDoc) {
    && c.id == d.id && c.name == d.name && SliceIs(c.clientSecretHash, d.clientSecretHash)
    && c.environmentId == d.environmentId && SliceIs(c.scopes, d.scopes) && c.active == d.active && c.version == d.version
  }

  ghost predicate AuditIs(a: AuditEntry, d: AuditDoc) {
    && a.id == d.id && a.timestamp == d.timestamp && a.actorId == d.actorId && TextIs(a.actorType, d.actorType)
    && a.action == d.action && a.targetType == d.targetType && TextIs(a.targetId, d.targetId)
    && TextIs(a.before, d.before) && TextIs(a.after, d.after) && a.success == d.success
    && a.statusCode == d.statusCode && TextIs(a.error, d.error)
  }

  // ----- what a trip does to any record -----

  /** An `omitempty` slice comes back nil when it was empty. */
  function Trimmed<T>(s: Slice<T>): Slice<T> {
    if s.Elems() == [] then Nil else s
  }

  function TrimmedConditions(cs: seq<Condition>): seq<Condition>
    decreases cs
  {
    if cs == [] then [] else
      [cs[0].(values := Trimmed(cs[0].values),
              conditions := match cs[0].conditions
                case Nil => Nil
                case Of(children) => if children == [] then Nil else Of(TrimmedConditions(children)))]
      + TrimmedConditions(cs[1..])
  }

  /** The trip empties no slice that had something in it and changes nothing but
      empty slices, at whatever depth. */
  lemma {:induction false} ConditionsAreTrimmed(cs: seq<Condition>)
    ensures DecodeConditions(EncodeConditions(cs)) == TrimmedConditions(cs)
    decreases cs
  {
    if cs != [] {
      ConditionsAreTrimmed(cs[1..]);
      match cs[0].conditions {
        case Nil =>
        case Of(children) => ConditionsAreTrimmed(children);
      }
      assert EncodeConditions(cs)[1..] == EncodeConditions(cs[1..]);
      assert DecodeConditions(EncodeConditions(cs))[1..] == DecodeConditions(EncodeConditions(cs[1..]));
      assert DecodeConditions(EncodeConditions(cs))[0] == TrimmedConditions(cs)[0];
    }
  }

  function TrimmedSlice(s: Slice<Condition>): Slice<Condition> {
    match s
    case Nil => Nil
    case Of(cs) => Of(TrimmedConditions(cs))
  }

  lemma RuleIsTrimmed(r: Rule)
    ensures DecodeRule(EncodeRule(r)) == r.(conditions := TrimmedSlice(r.conditions))
  {
    ConditionsAreTrimmed(r.conditions.Elems());
  }

  /** A flag keeps all its fields, and each of its rules all but empty slices in
      the conditions; likewise a segment. */
  lemma FlagIsTrimmed(f: Flag, back: Flag)
    requires back == DecodeFlag(EncodeFlag(f))
    ensures back.(rules := f.rules) == f && (back.rules.Of? <==> f.rules.Of?)
    ensures |back.rules.Elems()| == |f.rules.Elems()|
    ensures forall i :: 0 <= i < |f.rules.Elems()| ==>
      back.rules.Elems()[i] == f.rules.Elems()[i].(conditions := TrimmedSlice(f.rules.Elems()[i].conditions))
  {
    forall i | 0 <= i < |f.rules.Elems()|
      ensures back.rules.Elems()[i] == f.rules.Elems()[i].(conditions := TrimmedSlice(f.rules.Elems()[i].conditions))
    {
      RuleIsTrimmed(f.rules.Elems()[i]);
    }
  }

  lemma SegmentIsTrimmed(s: Segment, back: Segment)
    requires back == DecodeSegment(EncodeSegment(s))
    ensures back.(rules := s.rules) == s && (back.rules.Of? <==> s.rules.Of?)
    ensures |back.rules.Elems()| == |s.rules.Elems()|
    ensures forall i :: 0 <= i < |s.rules.Elems()| ==>
      back.rules.Elems()[i] == s.rules.Elems()[i].(conditions := TrimmedSlice(s.rules.Elems()[i].conditions))
  {
    forall i | 0 <= i < |s.rules.Elems()|
      ensures back.rules.Elems()[i] == s.rules.Elems()[i].(conditions := TrimmedSlice(s.rules.Elems()[i].conditions))
    {
      var r := s.rules.Elems()[i];
      assert back.rules.Elems()[i] == DecodeSegmentRule(EncodeSegmentRule(r));
      ConditionsAreTrimmed(r.conditions.Elems());
    }
  }

  /** The other records keep all but their empty slices. */
  lemma SmallRecordsAreTrimmed(u: User, g: Group, c: Credential)
    ensures DecodeUser(EncodeUser(u)) == u.(passwordHash := Trimmed(u.passwordHash), groupIds := Trimmed(u.groupIds))
    ensures DecodeGroup(EncodeGroup(g)) ==
      g.(permissions := Trimmed(g.permissions), environmentIds := Trimmed(g.environmentIds))
    ensures DecodeCredential(EncodeCredential(c)) ==
      c.(clientSecretHash := Trimmed(c.clientSecretHash), scopes := Trimmed(c.scopes))
  {
  }
}
