/** Flags and segments as a client sees them: records addressed by
    (environment, key), environments that never affect each other, and
    SetMany (backend/internal/store/flag.go). */
module FlagStore {
  import opened Records
  import opened Conditions
  import opened PairKeys
  import opened Machine
  import opened Invariants
  import opened Listing

  const FLAG_PAIR: Flag -> (string, string) := (f: Flag) => (f.environmentId, f.key)
  const SEGMENT_PAIR: Segment -> (string, string) := (g: Segment) => (g.environmentId, g.key)

  lemma StoredUnderOwnPair(s: State, last: nat)
    requires Invariant(s, last)
    ensures KeyedByPair(s.flags, FLAG_PAIR) && KeyedByPair(s.segments, SEGMENT_PAIR)
  {
  }

  lemma EnvironmentsAreSlashFree(s: State, last: nat, environmentId: string)
    requires Invariant(s, last) && environmentId in s.environments
    ensures SlashFree(environmentId)
  {
  }

  /** The flags of a reachable state, addressed by (environment, key). */
  ghost function FlagTable(s: State): map<(string, string), Flag>
    requires KeyedByPair(s.flags, FLAG_PAIR)
  {
    Pairs(s.flags, FLAG_PAIR)
  }

  ghost function SegmentTable(s: State): map<(string, string), Segment>
    requires KeyedByPair(s.segments, SEGMENT_PAIR)
  {
    Pairs(s.segments, SEGMENT_PAIR)
  }

  /** getFlag */
  function GetFlag(s: State, environmentId: string, key: string): Option<Flag> {
    Lookup(s.flags, MapKey(environmentId, key))
  }

  // ----- the flat map refines the pair-keyed one -----

  /** An accepted set of a flag writes exactly its pair, with the flag as it was
      submitted but for the four fields the store owns. */
  lemma SetFlagWritesItsPair(s: State, last: nat, index: nat, flag: Flag)
    requires Invariant(s, last) && last < index
    requires !ApplyFlag(s, index, Set(flag)).response.Failed?
    ensures var o := ApplyFlag(s, index, Set(flag));
      && KeyedByPair(s.flags, FLAG_PAIR) && KeyedByPair(o.state.flags, FLAG_PAIR)
      && o.response.StoredFlag? && o.response.flag.revision == index
      && o.response.flag.schemaVersion == 1 && o.response.flag.evaluatorLevel == 1
      && o.response.flag.salt == (if flag.salt == "" then flag.key else flag.salt)
      && o.response.flag.(schemaVersion := flag.schemaVersion, evaluatorLevel := flag.evaluatorLevel,
                          revision := flag.revision, salt := flag.salt) == flag
      && FlagTable(o.state) == FlagTable(s)[(flag.environmentId, flag.key) := o.response.flag]
  {
    hide Invariant, SlashFree, Pairs;
    StoredUnderOwnPair(s, last);
    EnvironmentsAreSlashFree(s, last, flag.environmentId);
    PutWritesThePair(s.flags, FLAG_PAIR, StampFlag(flag, index));
  }

  /** Putting back what was read is accepted in every reachable state and changes
      nothing but the revision: a defaulted salt stays what it is. */
  lemma RewritingChangesOnlyTheRevision(s: State, last: nat, index: nat, k: string)
    requires Invariant(s, last) && k in s.flags
    ensures ApplyFlag(s, index, Set(s.flags[k])) ==
      Outcome(s.(flags := s.flags[k := s.flags[k].(revision := index)]), StoredFlag(s.flags[k].(revision := index)))
  {
  }

  /** Deleting (environment, key) drops exactly the pair that the flat key splits
      into. For a slash-free environment ID that is the pair asked for; "a/b"
      and "c" drop the flag "b/c" of "a". */
  lemma DeleteFlagDropsItsPair(s: State, last: nat, index: nat, environmentId: string, key: string)
    requires Invariant(s, last)
    ensures var t := ApplyFlag(s, index, Delete(MapKey(environmentId, key))).state;
      && KeyedByPair(s.flags, FLAG_PAIR) && KeyedByPair(t.flags, FLAG_PAIR)
      && FlagTable(t) == FlagTable(s) - {SplitFirst(MapKey(environmentId, key))}
    ensures SlashFree(environmentId) ==> SplitFirst(MapKey(environmentId, key)) == (environmentId, key)
  {
    hide Invariant, SlashFree, Pairs, SplitFirst;
    StoredUnderOwnPair(s, last);
    var k := MapKey(environmentId, key);
    var flags := s.flags - {k};
    assert ApplyFlag(s, index, Delete(k)) == Outcome(s.(flags := flags), Done);
    RemoveDropsTheSplit(s.flags, FLAG_PAIR, environmentId, key);
    if SlashFree(environmentId) {
      SplitAtSlashFreePrefix(environmentId, key);
    }
  }

  lemma SetSegmentWritesItsPair(s: State, last: nat, index: nat, segment: Segment)
    requires Invariant(s, last) && last < index
    requires !ApplySegment(s, index, Set(segment)).response.Failed?
    ensures var o := ApplySegment(s, index, Set(segment));
      && KeyedByPair(s.segments, SEGMENT_PAIR) && KeyedByPair(o.state.segments, SEGMENT_PAIR)
      && o.response.StoredSegment? && o.response.segment.revision == index
      && o.response.segment.schemaVersion == 1 && o.response.segment.evaluatorLevel == 1
      && o.response.segment.(schemaVersion := segment.schemaVersion, evaluatorLevel := segment.evaluatorLevel,
                             revision := segment.revision) == segment
      && SegmentTable(o.state) == SegmentTable(s)[(segment.environmentId, segment.key) := o.response.segment]
  {
    hide Invariant, SlashFree, Pairs, SegmentError;
    StoredUnderOwnPair(s, last);
    EnvironmentsAreSlashFree(s, last, segment.environmentId);
    PutWritesThePair(s.segments, SEGMENT_PAIR, ApplySegment(s, index, Set(segment)).response.segment);
  }

  /** A segment cannot be deleted exactly when the pair that the flat key splits
      into is there and a flag of its environment names it. */
  lemma DeleteSegmentIsRefused(s: State, last: nat, index: nat, environmentId: string, key: string)
    requires Invariant(s, last)
    ensures KeyedByPair(s.segments, SEGMENT_PAIR)
    ensures var pair := SplitFirst(MapKey(environmentId, key));
      ApplySegment(s, index, Delete(MapKey(environmentId, key))).response.Failed?
      <==> pair in SegmentTable(s) && SegmentReferenced(s, pair.0, pair.1)
    ensures SlashFree(environmentId) ==> SplitFirst(MapKey(environmentId, key)) == (environmentId, key)
  {
    hide Invariant, SlashFree, Pairs, SplitFirst, SegmentReferenced;
    if SlashFree(environmentId) {
      SplitAtSlashFreePrefix(environmentId, key);
    }
    StoredUnderOwnPair(s, last);
    FlatKeySplits(environmentId, key);
    var pair := SplitFirst(MapKey(environmentId, key));
    SegmentIsInTable(s, pair.0, pair.1);
  }

  lemma FlatKeySplits(environmentId: string, key: string)
    ensures var pair := SplitFirst(MapKey(environmentId, key));
      MapKey(pair.0, pair.1) == MapKey(environmentId, key) && SlashFree(pair.0)
  {
    assert MapKey(environmentId, key)[|environmentId|] == '/';
    SplitRebuilds(MapKey(environmentId, key));
  }

  lemma SegmentIsInTable(s: State, environmentId: string, key: string)
    requires KeyedByPair(s.segments, SEGMENT_PAIR) && SlashFree(environmentId)
    ensures var k := MapKey(environmentId, key);
      && (k in s.segments <==> (environmentId, key) in SegmentTable(s))
      && (k in s.segments ==> s.segments[k].environmentId == environmentId && s.segments[k].key == key)
  {
    var k := MapKey(environmentId, key);
    PairsLookup(s.segments, SEGMENT_PAIR, (environmentId, key));
    if k in s.segments {
      MapKeyIsInjective(SEGMENT_PAIR(s.segments[k]).0, SEGMENT_PAIR(s.segments[k]).1, environmentId, key);
    }
  }

  /** An accepted delete of a segment drops exactly that pair, and the pair is
      the one asked for when the environment ID has no slash. */
  lemma DeleteSegmentDropsItsPair(s: State, last: nat, index: nat, environmentId: string, key: string)
    requires Invariant(s, last)
    requires !ApplySegment(s, index, Delete(MapKey(environmentId, key))).response.Failed?
    ensures var t := ApplySegment(s, index, Delete(MapKey(environmentId, key))).state;
      && KeyedByPair(s.segments, SEGMENT_PAIR) && KeyedByPair(t.segments, SEGMENT_PAIR)
      && SegmentTable(t) == SegmentTable(s) - {SplitFirst(MapKey(environmentId, key))}
    ensures SlashFree(environmentId) ==> SplitFirst(MapKey(environmentId, key)) == (environmentId, key)
  {
    hide Invariant, SlashFree, Pairs, SplitFirst;
    StoredUnderOwnPair(s, last);
    var k := MapKey(environmentId, key);
    var segments := s.segments - {k};
    assert ApplySegment(s, index, Delete(k)).state.segments == segments;
    RemoveDropsTheSplit(s.segments, SEGMENT_PAIR, environmentId, key);
    if SlashFree(environmentId) {
      SplitAtSlashFreePrefix(environmentId, key);
    }
  }

  /** Reading (environment, key) reads the pair-keyed table for every
      slash-free environment ID. */
  lemma GetFlagReadsItsPair(s: State, last: nat, environmentId: string, key: string)
    requires Invariant(s, last) && SlashFree(environmentId)
    ensures KeyedByPair(s.flags, FLAG_PAIR)
    ensures GetFlag(s, environmentId, key) == Lookup(FlagTable(s), (environmentId, key))
  {
    StoredUnderOwnPair(s, last);
    GetReadsThePair(s.flags, FLAG_PAIR, environmentId, key);
  }

  const DEFAULT_FLAG := Flag(0, "", "", "boolean", false, 0, 0, "", Nil, "", Nil, Serve("", None))

  /** Reading (environment, key) gives what the table holds under that pair. */
  ghost predicate ReadsItsPair(s: State, environmentId: string, key: string) {
    && KeyedByPair(s.flags, FLAG_PAIR)
    && GetFlag(s, environmentId, key) == Lookup(FlagTable(s), (environmentId, key))
  }

  predicate StartsWithSlash(text: string) {
    text != "" && text[0] == '/'
  }

  /** An ID that starts with a slash splits into the empty environment, which is
      never there. */
  lemma LeadingSlashReadsNothing(s: State, last: nat, environmentId: string, key: string)
    requires Invariant(s, last) && StartsWithSlash(environmentId)
    ensures ReadsItsPair(s, environmentId, key)
  {
    StoredUnderOwnPair(s, last);
    PairsLookup(s.flags, FLAG_PAIR, (environmentId, key));
    forall k | k in s.flags ensures k != "" && k[0] != '/' {
      assert FlagOk(s.environments.Keys, k, s.flags[k], last);
      assert IsEnvironmentId(s.flags[k].environmentId);
      assert k[0] == s.flags[k].environmentId[0];
    }
    assert MapKey(environmentId, key)[0] == '/';
  }

  /** A log after which the read goes wrong: the environment before the first
      slash, and in it the flag that the rest of the flat key names. */
  function MisleadingLog(environmentId: string, key: string): seq<Entry> {
    var split := SplitFirst(MapKey(environmentId, key));
    [Entry(1, EnvironmentCommand(Set(Environment(split.0, "", 0, 0, "")))),
     Entry(2, FlagCommand(Set(DEFAULT_FLAG.(environmentId := split.0, key := split.1))))]
  }

  lemma MisleadingLogMisleads(environmentId: string, key: string)
    requires !SlashFree(environmentId) && !StartsWithSlash(environmentId)
    ensures IsLog(MisleadingLog(environmentId, key), 0)
    ensures !ReadsItsPair(Run(EMPTY_STATE, MisleadingLog(environmentId, key)), environmentId, key)
  {
    var text := MapKey(environmentId, key);
    assert text[|environmentId|] == '/' && text[0] == environmentId[0];
    SplitRebuilds(text);
    var log := MisleadingLog(environmentId, key);
    assert IsLog(log, 0);
    assert log[..1] == [log[0]] && log[..1][..0] == [];
    var s := Step(EMPTY_STATE, log[0]).state;
    assert s == Run(EMPTY_STATE, log[..1]) && SplitFirst(text).0 in s.environments;
    var t := Step(s, log[1]).state;
    assert t == Run(EMPTY_STATE, log) && text in t.flags;
    RunMakesProgress(EMPTY_STATE, 0, log);
    StoredUnderOwnPair(t, 2);
    PairsLookup(t.flags, FLAG_PAIR, (environmentId, key));
  }

  /** A read is right in every reachable state exactly when the environment ID
      asked for has no slash or starts with one. Otherwise "a/b" and key "c"
      read the flag "b/c" of environment "a". */
  lemma GetFlagIsRightExactlyWhen(environmentId: string, key: string)
    ensures SlashFree(environmentId) || StartsWithSlash(environmentId)
       <==> forall log :: IsLog(log, 0) ==> ReadsItsPair(Run(EMPTY_STATE, log), environmentId, key)
  {
    if SlashFree(environmentId) || StartsWithSlash(environmentId) {
      forall log | IsLog(log, 0) ensures ReadsItsPair(Run(EMPTY_STATE, log), environmentId, key) {
        RunMakesProgress(EMPTY_STATE, 0, log);
        if SlashFree(environmentId) {
          GetFlagReadsItsPair(Run(EMPTY_STATE, log), LastIndex(log, 0), environmentId, key);
        } else {
          LeadingSlashReadsNothing(Run(EMPTY_STATE, log), LastIndex(log, 0), environmentId, key);
        }
      }
    } else {
      MisleadingLogMisleads(environmentId, key);
    }
  }

  /** getSegment */
  function GetSegment(s: State, environmentId: string, key: string): Option<Segment> {
    Lookup(s.segments, MapKey(environmentId, key))
  }

  lemma GetSegmentReadsItsPair(s: State, last: nat, environmentId: string, key: string)
    requires Invariant(s, last) && SlashFree(environmentId)
    ensures KeyedByPair(s.segments, SEGMENT_PAIR)
    ensures GetSegment(s, environmentId, key) == Lookup(SegmentTable(s), (environmentId, key))
  {
    StoredUnderOwnPair(s, last);
    GetReadsThePair(s.segments, SEGMENT_PAIR, environmentId, key);
  }

  const DEFAULT_SEGMENT := Segment(0, "", "", "", 0, 0, Nil, Nil, Nil)

  ghost predicate ReadsItsSegment(s: State, environmentId: string, key: string) {
    && KeyedByPair(s.segments, SEGMENT_PAIR)
    && GetSegment(s, environmentId, key) == Lookup(SegmentTable(s), (environmentId, key))
  }

  lemma LeadingSlashReadsNoSegment(s: State, last: nat, environmentId: string, key: string)
    requires Invariant(s, last) && StartsWithSlash(environmentId)
    ensures ReadsItsSegment(s, environmentId, key)
  {
    StoredUnderOwnPair(s, last);
    PairsLookup(s.segments, SEGMENT_PAIR, (environmentId, key));
    forall k | k in s.segments ensures k != "" && k[0] != '/' {
      assert SegmentOk(s.environments.Keys, k, s.segments[k], last);
      assert IsEnvironmentId(s.segments[k].environmentId);
      assert k[0] == s.segments[k].environmentId[0];
    }
    assert MapKey(environmentId, key)[0] == '/';
  }

  function MisleadingSegmentLog(environmentId: string, key: string): seq<Entry> {
    var split := SplitFirst(MapKey(environmentId, key));
    [Entry(1, EnvironmentCommand(Set(Environment(split.0, "", 0, 0, "")))),
     Entry(2, SegmentCommand(Set(DEFAULT_SEGMENT.(environmentId := split.0, key := split.1))))]
  }

  lemma MisleadingLogMisleadsSegments(environmentId: string, key: string)
    requires !SlashFree(environmentId) && !StartsWithSlash(environmentId)
    ensures IsLog(MisleadingSegmentLog(environmentId, key), 0)
    ensures !ReadsItsSegment(Run(EMPTY_STATE, MisleadingSegmentLog(environmentId, key)), environmentId, key)
  {
    var text := MapKey(environmentId, key);
    assert text[|environmentId|] == '/' && text[0] == environmentId[0];
    SplitRebuilds(text);
    var log := MisleadingSegmentLog(environmentId, key);
    assert IsLog(log, 0);
    assert log[..1] == [log[0]] && log[..1][..0] == [];
    var s := Step(EMPTY_STATE, log[0]).state;
    assert s == Run(EMPTY_STATE, log[..1]) && SplitFirst(text).0 in s.environments;
    var t := Step(s, log[1]).state;
    assert t == Run(EMPTY_STATE, log) && text in t.segments;
    RunMakesProgress(EMPTY_STATE, 0, log);
    StoredUnderOwnPair(t, 2);
    PairsLookup(t.segments, SEGMENT_PAIR, (environmentId, key));
  }

  /** Segments are read right for exactly the same IDs. */
  lemma GetSegmentIsRightExactlyWhen(environmentId: string, key: string)
    ensures SlashFree(environmentId) || StartsWithSlash(environmentId)
       <==> forall log :: IsLog(log, 0) ==> ReadsItsSegment(Run(EMPTY_STATE, log), environmentId, key)
  {
    if SlashFree(environmentId) || StartsWithSlash(environmentId) {
      forall log | IsLog(log, 0) ensures ReadsItsSegment(Run(EMPTY_STATE, log), environmentId, key) {
        RunMakesProgress(EMPTY_STATE, 0, log);
        if SlashFree(environmentId) {
          GetSegmentReadsItsPair(Run(EMPTY_STATE, log), LastIndex(log, 0), environmentId, key);
        } else {
          LeadingSlashReadsNoSegment(Run(EMPTY_STATE, log), LastIndex(log, 0), environmentId, key);
        }
      }
    } else {
      MisleadingLogMisleadsSegments(environmentId, key);
    }
  }

  /** What is in a pair-keyed table under one environment. */
  ghost function Row<V>(table: map<(string, string), V>, environmentId: string): set<V> {
    set p | p in table && p.0 == environmentId :: table[p]
  }

  lemma KeptIsTheRow<V>(m: map<string, V>, pair: V -> (string, string), environmentId: string, keep: V -> bool)
    requires KeyedByPair(m, pair) && forall v :: keep(v) <==> pair(v).0 == environmentId
    ensures Kept(m, keep) == Row(Pairs(m, pair), environmentId)
  {
  }

  /** The listings scan the whole flat map for an environment and find exactly
      what the table holds under it. */
  lemma ListingsAreRows(s: State, last: nat, environmentId: string)
    requires Invariant(s, last)
    ensures KeyedByPair(s.flags, FLAG_PAIR) && KeyedByPair(s.segments, SEGMENT_PAIR)
    ensures Kept(s.flags, (f: Flag) => f.environmentId == environmentId) == Row(FlagTable(s), environmentId)
    ensures Kept(s.segments, (g: Segment) => g.environmentId == environmentId) == Row(SegmentTable(s), environmentId)
  {
    StoredUnderOwnPair(s, last);
    KeptIsTheRow(s.flags, FLAG_PAIR, environmentId, (f: Flag) => f.environmentId == environmentId);
    KeptIsTheRow(s.segments, SEGMENT_PAIR, environmentId, (g: Segment) => g.environmentId == environmentId);
  }

  // ----- environments do not affect each other -----

  /** The environments whose flags a flag command is about. */
  ghost predicate IsAbout(op: Op<Flag>, environmentId: string) {
    match op
    case Set(flag) => flag.environmentId == environmentId
    case SetBatch(flags) => exists i :: 0 <= i < |flags| && flags[i].environmentId == environmentId
    case Delete(k) => SplitFirst(k).0 == environmentId
    case _ => false
  }

  /** A flag command leaves every flag of every other environment as it is. */
  lemma OtherEnvironmentsAreUntouched(s: State, last: nat, index: nat, op: Op<Flag>, environmentId: string, key: string)
    requires Invariant(s, last) && last < index
    requires SlashFree(environmentId) && !IsAbout(op, environmentId)
    ensures GetFlag(ApplyFlag(s, index, op).state, environmentId, key) == GetFlag(s, environmentId, key)
  {
    var k := MapKey(environmentId, key);
    SplitAtSlashFreePrefix(environmentId, key);
    match op
    case Set(flag) =>
      if !ApplyFlag(s, index, op).response.Failed? && FlagKey(flag) == k {
        assert IsEnvironmentId(flag.environmentId);
        SplitAtSlashFreePrefix(flag.environmentId, flag.key);
      }
    case SetBatch(flags) =>
      if BatchError(s, flags).None? {
        CleanBatch(s, flags);
        BatchMisses(s.flags, flags, index, environmentId, key);
      }
    case _ =>
  }

  lemma {:induction false} BatchMisses(stored: map<string, Flag>, flags: seq<Flag>, index: nat, environmentId: string, key: string)
    requires SlashFree(environmentId)
    requires forall i :: 0 <= i < |flags| ==> SlashFree(flags[i].environmentId) && flags[i].environmentId != environmentId
    ensures Lookup(WriteAll(stored, flags, index), MapKey(environmentId, key)) == Lookup(stored, MapKey(environmentId, key))
  {
    if flags != [] {
      BatchMisses(stored, flags[..|flags| - 1], index, environmentId, key);
      var last := flags[|flags| - 1];
      if FlagKey(last) == MapKey(environmentId, key) {
        MapKeyIsInjective(last.environmentId, last.key, environmentId, key);
      }
    }
  }

  // ----- SetMany -----

  /** SetMany: one definition, stamped with each environment ID in turn. */
  function ManyFlags(definition: Flag, environmentIds: seq<string>): seq<Flag> {
    seq(|environmentIds|, i requires 0 <= i < |environmentIds| => definition.(environmentId := environmentIds[i]))
  }

  function ManyKeys(key: string, ids: seq<string>): set<string> {
    set i | 0 <= i < |ids| :: MapKey(ids[i], key)
  }

  lemma {:induction false} WriteManyContents(stored: map<string, Flag>, definition: Flag, ids: seq<string>, index: nat)
    ensures var after := WriteAll(stored, ManyFlags(definition, ids), index);
      && after.Keys == stored.Keys + ManyKeys(definition.key, ids)
      && forall i :: 0 <= i < |ids| ==> MapKey(ids[i], definition.key) in after
  {
    hide StampFlag;
    if ids != [] {
      var front := ids[..|ids| - 1];
      WriteManyContents(stored, definition, front, index);
      assert ManyFlags(definition, ids)[..|ids| - 1] == ManyFlags(definition, front);
      assert ManyKeys(definition.key, ids) == ManyKeys(definition.key, front) + {MapKey(ids[|ids| - 1], definition.key)};
    }
  }

  lemma {:induction false} WriteManyValues(stored: map<string, Flag>, definition: Flag, ids: seq<string>, index: nat, i: nat)
    requires i < |ids|
    requires forall j :: 0 <= j < |ids| ==> SlashFree(ids[j])
    ensures Lookup(WriteAll(stored, ManyFlags(definition, ids), index), MapKey(ids[i], definition.key))
         == Some(StampFlag(definition.(environmentId := ids[i]), index))
  {
    var n := |ids| - 1;
    assert ManyFlags(definition, ids)[..n] == ManyFlags(definition, ids[..n]);
    if MapKey(ids[i], definition.key) == MapKey(ids[n], definition.key) {
      MapKeyIsInjective(ids[i], definition.key, ids[n], definition.key);
    } else {
      WriteManyValues(stored, definition, ids[..n], index, i);
    }
  }

  /** SetMany, duplicates among the environment IDs included: it is accepted
      exactly when the type is known, every environment exists and none has the
      key already. Then it writes those environments and no other, all with one
      revision, returns what Get then reads, and leaves every earlier flag. */
  lemma SetManyIsAtomic(s: State, last: nat, index: nat, definition: Flag, ids: seq<string>)
    requires Invariant(s, last) && last < index
    ensures var o := ApplyFlag(s, index, SetBatch(ManyFlags(definition, ids)));
      && (o.response.Failed? <==>
            exists i :: 0 <= i < |ids| && (ids[i] !in s.environments || !IsKnownFlagType(definition.kind)
                                           || GetFlag(s, ids[i], definition.key).Some?))
      && (o.response.Failed? ==> o.state == s)
      && (!o.response.Failed? ==>
            && o.response.StoredFlags? && |o.response.flags| == |ids|
            && (forall i :: 0 <= i < |ids| ==>
                  && o.response.flags[i].revision == index
                  && o.response.flags[i].environmentId == ids[i]
                  && o.response.flags[i].schemaVersion == 1 && o.response.flags[i].evaluatorLevel == 1
                  && o.response.flags[i].salt == (if definition.salt == "" then definition.key else definition.salt)
                  && o.response.flags[i].(
                       environmentId := definition.environmentId, revision := definition.revision, salt := definition.salt,
                       schemaVersion := definition.schemaVersion, evaluatorLevel := definition.evaluatorLevel) == definition
                  && GetFlag(o.state, ids[i], definition.key) == Some(o.response.flags[i]))
            && (forall k :: k in s.flags ==> k in o.state.flags && o.state.flags[k] == s.flags[k])
            && o.state.flags.Keys == s.flags.Keys + ManyKeys(definition.key, ids))
  {
    var flags := ManyFlags(definition, ids);
    CleanBatch(s, flags);
    if BatchError(s, flags).None? {
      BatchIsAccepted(s, last, index, definition, ids);
    } else {
      var i :| 0 <= i < |flags| && BatchEntryError(s, flags[i]).Some?;
      assert ids[i] !in s.environments || !IsKnownFlagType(definition.kind) || GetFlag(s, ids[i], definition.key).Some?;
    }
  }

  lemma BatchIsAccepted(s: State, last: nat, index: nat, definition: Flag, ids: seq<string>)
    requires Invariant(s, last) && last < index
    requires BatchError(s, ManyFlags(definition, ids)).None?
    ensures var o := ApplyFlag(s, index, SetBatch(ManyFlags(definition, ids)));
      && (forall i :: 0 <= i < |ids| ==>
            && ids[i] in s.environments && IsKnownFlagType(definition.kind) && GetFlag(s, ids[i], definition.key).None?
            && GetFlag(o.state, ids[i], definition.key) == Some(StampFlag(definition.(environmentId := ids[i]), index)))
      && (forall k :: k in s.flags ==> k in o.state.flags && o.state.flags[k] == s.flags[k])
      && o.state.flags.Keys == s.flags.Keys + ManyKeys(definition.key, ids)
  {
    var flags := ManyFlags(definition, ids);
    CleanBatch(s, flags);
    forall i | 0 <= i < |ids|
      ensures ids[i] in s.environments && IsKnownFlagType(definition.kind) && GetFlag(s, ids[i], definition.key).None?
    {
      assert BatchEntryError(s, flags[i]).None?;
    }
    forall i | 0 <= i < |ids|
      ensures Lookup(WriteAll(s.flags, flags, index), MapKey(ids[i], definition.key))
           == Some(StampFlag(definition.(environmentId := ids[i]), index))
    {
      WriteManyValues(s.flags, definition, ids, index, i);
    }
    WriteManyContents(s.flags, definition, ids, index);
    InvariantIsMonotone(s, last, index);
    BatchAddsFlags(s, index, flags);
    WriteAllContents(s.flags, flags, index);
  }
}
