# A verified model of the Aerendil flag store

Aerendil keeps feature flags, segments, users, groups, environments, application
credentials and an audit log in one state machine that Raft replicates
(`backend/internal/store`). This project models that state machine, the code that
reads and writes it (repositories, HTTP handlers, permission resolution, seeding,
audit middleware, paging) and the FQDP frame reader and writer, and proves what
they keep.

The pieces, in the order they build on each other:

| file | what it holds |
|---|---|
| Records.dfy | entities, commands, responses, the seven maps |
| Conditions.dfy | condition trees and the search for `inSegment` clauses |
| PairKeys.dfy | `environment/key` strings as keys, and the pair-keyed map they stand for |
| Machine.dfy | `Step`: one committed entry as a function; `Run` and `Responses` over a log |
| Invariants.dfy | the joint invariant, what every step and every run keeps |
| Commands.dfy | what each command does to the maps and answers, and exactly when it is refused |
| Listing.dfy | sorted listings that do not depend on map order |
| FlagStore.dfy | flags and segments by (environment, key); `SetMany` |
| Documents.dfy, Snapshots.dfy | the JSON form field by field; snapshot, restore, replay |
| Replica.dfy | the imperative replica, class `Fsm`, proved against `Step` |
| Permissions.dfy, Bootstrap.dfy | live permission resolution; seeding; administration is never lost |
| Repositories.dfy | repository pre-checks; clients that act on stale reads |
| CredentialPinning.dfy, EnvironmentOrder.dfy, UserRequests.dfy | invariants of the handlers |
| Decimal.dfy, OffsetPages.dfy, AuditPages.dfy | cursors and the two pagination algorithms |
| AuditTrail.dfy | the audit middleware |
| Frames.dfy | FQDP frames and the connection loop |

Wherever Go walks a map, the model picks elements in an arbitrary order and the
result is proved not to depend on it. The methods of `Fsm` update their fields in
place; each is proved to do exactly what the corresponding function does, and the
lemmas about runs are about those functions.

## Assumptions

- Environment IDs submitted in commands are not empty and contain no `/`: `NewID`
  yields UUIDs (`Invariants.Admissible`). Snapshots, the audit log and the audit
  pages do not need this; the findings below say exactly what does.
- Log indexes are at least 1 and strictly increasing; they fit 64 bits where
  cursors are concerned.
- A command carries the payload its entity and operation need.
- `NewID` results are fresh. Clocks, password hashes and secrets are parameters.
- `Apply` and each read are atomic; concurrency is interleaved reads and applies.
- A write either commits or fails with "not the leader" and changes nothing.

## Findings

- Reading a flag of (environment ID, key) is right in every reachable state exactly
  when the ID has no slash or starts with one
  (`FlagStore.GetFlagIsRightExactlyWhen`; the same holds of segments,
  `FlagStore.GetSegmentIsRightExactlyWhen`). Otherwise some log misleads it
  (`FlagStore.MisleadingLogMisleads`): `"a/b"` and key `"c"` read the flag `"b/c"`
  of `"a"`, and deleting that pair drops it (`FlagStore.DeleteFlagDropsItsPair`).
  No stored environment has such an ID, but the handlers pass an admin's query on
  as it is.
- After any log whatever, `Restore` refuses the store's own snapshot exactly when a
  flag sits in an environment with the empty ID
  (`Snapshots.SnapshotIsAcceptedExactlyWhen`; a log that leads there is in
  `Snapshots.EmptyEnvironmentIdIsRefused`). `NewID` never yields the empty ID, and
  then every snapshot is accepted (`Snapshots.NamedEnvironmentsAreAccepted`).
- A non-nil empty slice does not survive `omitempty`; replay is exact only because
  every command has been through JSON once before it is applied
  (`Snapshots.StateRoundTrip`, `Snapshots.SnapshotEqualsReplay`).
- Seeding reports no error whether or not it leaves an administrator
  (`Bootstrap.LoopWorksExactlyWhen`). It leaves one exactly when the last attempt of
  the retry loop finds no ordinary group under the Admin ID, finds the group or leads
  to write it, and either finds an active member or finds the username free and
  leads to write the user. Three ways to miss it are shown: the username is taken
  (`Bootstrap.SeedingStopsAtATakenUsername`), an ordinary group has the Admin ID
  (`Bootstrap.SeedingTrustsAnOrdinaryGroup`), and the loop gives up because the node
  does not lead (`Bootstrap.GivingUpLooksLikeSuccess`). The server opens its HTTP API
  after seeding whatever came of it (`backend/cmd/server/main.go:51-57`), so the
  first two do not come from the API of a fresh store; the third is meant for
  followers, whose leader seeds the store. When nothing else writes to an empty
  store, it is seeded exactly when an attempt led for the user and it or an earlier
  one led for the group (`Bootstrap.EmptyStoreIsSeededExactlyWhen`).
- The handlers compute environment orders and a user's groups from an earlier read.
  Overlapping creations get equal orders
  (`EnvironmentOrder.OverlappingCreationsCollide`), and a non-admin's update can undo
  a promotion to admin that overlaps it (`UserRequests.OverlapUndoesAPromotion`);
  when this does not happen is stated exactly beside them.
- The username pre-check is right only because usernames are unique already
  (`Repositories.UserSetCheckNeedsUniqueNames`).
- A connection that breaks off right after a frame's length counts as cleanly
  closed (`Frames.ConnectionEndsCleanlyExactlyWhen`).
- An error message of 65536 bytes or more would go out with a length field that
  does not describe it (`Frames.ErrorReadsBackExactlyWhenShort`). No caller sends
  one: every reply of the server is shorter than 100 bytes
  (`Frames.RepliesAreShort`).

## Model

| member | source | states |
|---|---|---|
| Conditions.UsesInSegmentIsFlatSearch | backend/internal/store/segment.go:76-96 | the depth-first search is true exactly when some node of the flattened tree, at any depth, is a matching `inSegment` clause |
| Conditions.FlattenIsTheClosure | backend/internal/store/segment.go:76-96 | the flattened tree holds the conditions given and, with each of them, the conditions of the group under it, at any depth, and nothing else |
| Conditions.ClauseMatchesExactlyWhen | backend/internal/store/segment.go:78-96 | a clause matches exactly when its operator is `inSegment` and, where a segment is wanted, its values list the key, a null standing for the empty key |
| Conditions.FlagNamesExactlyWhen | backend/internal/store/segment.go:98-112 | a flag names a segment exactly when some node of some rule, at any depth, is an `inSegment` clause that lists its key |
| Conditions.ValidSegmentsDoNotRecurse | backend/internal/store/segment.go:61-74 | a segment passes validation exactly when it has at most 100 rules, at most 6000 keys and no `inSegment` at any depth |
| PairKeys.MapKeyIsInjective | backend/internal/store/flag.go:128-131 | with slash-free environment IDs no two (environment, key) pairs share a map key |
| PairKeys.EnvironmentsCollideExactlyWhen | backend/internal/store/flag.go:128-131 | two environments can share a map key exactly when one ID followed by a slash begins the other |
| PairKeys.GetReadsThePair | backend/internal/store/flag.go:179-184 | a read of the flat map is a read of the pair-keyed map it stands for |
| PairKeys.PutWritesThePair | backend/internal/store/flag.go:147 | a write under the flat key writes its own pair and nothing else |
| PairKeys.RemoveDropsTheSplit | backend/internal/store/flag.go:171-173 | a delete of any flat key drops the pair it splits into at its first slash and nothing else |
| PairKeys.RemoveDropsThePair | backend/internal/store/flag.go:171-173 | for a slash-free environment ID that is the pair asked for |
| Machine.OthersStay | backend/internal/store/fsm.go:82-109 | a command changes no map but its own entity's |
| Machine.RunFromCut | backend/internal/store/fsm.go:82-109 | a log can be cut anywhere: state and responses of the rest are those of the whole |
| Commands.SetUserStores | backend/internal/store/user.go:30-41 | a user is stored as submitted under its ID with the index for a version, and nobody else changes; refused exactly when another user holds the name, or else when no active admin would be left |
| Commands.DeleteUserDrops | backend/internal/store/user.go:42-47 | the user is gone afterwards and everyone else is as before; refused exactly for the only active admin |
| Commands.SetGroupStores | backend/internal/store/group.go:32-38 | a group is stored as submitted but for its version, and no other changes; refused exactly when a System group has the ID |
| Commands.DeleteGroupDrops | backend/internal/store/group.go:39-44 | the group is gone and every other is as before; refused exactly for a System group |
| Commands.AppendStores | backend/internal/store/audit.go:28-37 | the entry is stored as submitted under its log index, and no other changes |
| Commands.SetEnvironmentStores | backend/internal/store/environment.go:42-45 | an environment is stored as submitted but for its version, and no other changes |
| Commands.DeleteEnvironmentDrops | backend/internal/store/environment.go:46-61 | the environment is gone and every other is as before; refused exactly for the last one, or else for flags, credentials or segments in it, in this order |
| Commands.SetCredentialStores | backend/internal/store/application_credential.go:24-30 | a credential is stored as submitted but for its version, and no other changes; refused exactly when its environment is unknown |
| Commands.DeleteCredentialDrops | backend/internal/store/application_credential.go:31-33 | the credential is gone and every other is as before |
| Commands.SetFlagIsRefusedExactlyWhen | backend/internal/store/flag.go:135-148 | a flag is refused exactly for an unknown environment, an unknown type or a changed type, in this order; otherwise its own key is written and no other |
| Commands.BatchIsRefusedForItsFirstBadEntry | backend/internal/store/flag.go:149-163 | a batch answers with the error of its first bad entry, and changes nothing |
| Commands.DeleteFlagDrops | backend/internal/store/flag.go:171-173 | the key is gone and every other flag is as before |
| Commands.SetSegmentIsRefusedExactlyWhen | backend/internal/store/segment.go:134-145 | a segment is refused exactly for an unknown environment, a limit exceeded or an `inSegment` at any depth, in this order; otherwise its own key is written and no other |
| Commands.DeleteSegmentDrops | backend/internal/store/segment.go:146-155 | the key is gone and every other segment is as before; refused exactly when it is there and a flag of its environment names it |
| Commands.OtherCommandsAreRefused | backend/internal/store/fsm.go:82-109 | what does not decode, an unknown entity and an unknown operation on any entity each give their error and change nothing |
| Commands.RunIsItsSteps | backend/internal/store/fsm.go:82-109 | at every entry of a log, state and response are those of one step from the state before it |
| Invariants.CleanBatch | backend/internal/store/flag.go:149-163 | a batch passes exactly when every entry of it would |
| Invariants.WriteAllContents | backend/internal/store/flag.go:164-170 | after a batch every record is an earlier one untouched or a stamped entry of the batch |
| Invariants.AnAdminIsLeft | backend/internal/store/user.go:36-47 | a user write that passes the sole-admin check leaves an active admin |
| Invariants.LastEnvironmentStays | backend/internal/store/environment.go:46-50 | a delete that passes the last-environment check leaves an environment |
| Invariants.StepIsTransition | backend/internal/store/fsm.go:82-109 | every command keeps the joint invariant, loses no audit entry, keeps flag types, named segments, System groups, an environment and administration, and stamps what it writes above every earlier index |
| Invariants.RunMakesProgress | backend/internal/store/fsm.go:82-109 | over every run from any reachable state: the joint invariant at the end, no audit entry lost or altered, System groups as they were, every other record the earlier one or stamped above every earlier index, an environment left and administration not lost |
| Invariants.AuditLogIsTheAppends | backend/internal/store/audit.go:28-37 | after any run whatever the audit log is exactly what it was and the appends of the log, each as submitted under its own log index |
| Invariants.ReachableStatesAreSound | backend/internal/store/segment.go:132-155 | in every reachable state flags, segments and credentials name existing environments, segments are within limits and never recurse, usernames are unique |
| Invariants.FlagTypeIsFixed | backend/internal/store/flag.go:142-145 | over any run a flag keeps its type for as long as it is there |
| Invariants.NamedSegmentIsNeverPulled | backend/internal/store/segment.go:146-155 | over any run a segment stays for as long as some flag of its environment names it, at any depth |
| Listing.ListingIsUnique | backend/internal/store/flag.go:186-197 | two strictly sorted listings of the same values are equal |
| Listing.SortedValues | backend/internal/store/audit.go:77-88 | collecting in arbitrary map order and sorting lists exactly the wanted values in order |
| Listing.StringLessIsTotal | backend/internal/store/flag.go:195 | the string order tells different keys apart |
| Listing.StringLessIsLexicographic | backend/internal/store/flag.go:195 | one key comes before another exactly when, after what they share, it ends or goes on with a smaller character |
| FlagStore.StoredUnderOwnPair | backend/internal/store/flag.go:128-131 | in a reachable state every flag and segment sits under the key of its own pair |
| FlagStore.SetFlagWritesItsPair | backend/internal/store/flag.go:118-148 | an accepted flag write is a write of its pair in the pair-keyed table, as submitted but for the four store-owned fields |
| FlagStore.RewritingChangesOnlyTheRevision | backend/internal/store/flag.go:118-148 | putting back what was read is accepted and changes only the revision; a defaulted salt stays |
| FlagStore.DeleteFlagDropsItsPair | backend/internal/store/flag.go:275-285 | a flag delete drops exactly the pair its flat key splits into, for any environment ID; without a slash that is the pair asked for |
| FlagStore.SetSegmentWritesItsPair | backend/internal/store/segment.go:134-145 | an accepted segment write is a write of its pair, as submitted but for the three store-owned fields |
| FlagStore.DeleteSegmentIsRefused | backend/internal/store/segment.go:146-155 | a segment delete is refused exactly when the pair its flat key splits into is there and a flag of its environment names it |
| FlagStore.DeleteSegmentDropsItsPair | backend/internal/store/segment.go:213-224 | an accepted segment delete drops exactly that pair, for any environment ID |
| FlagStore.GetFlagReadsItsPair | backend/internal/store/flag.go:179-184 | reading a flag reads the pair-keyed table |
| FlagStore.LeadingSlashReadsNothing | backend/internal/store/flag.go:179-184 | an ID that starts with a slash reads nothing, which is what the table holds under it |
| FlagStore.MisleadingLogMisleads | backend/internal/store/flag.go:179-184 | for every other ID with a slash, and every key, a log of two entries after which the read is wrong |
| FlagStore.GetFlagIsRightExactlyWhen | backend/internal/store/flag.go:179-184 | reads are right after every log exactly for environment IDs that have no slash or start with one |
| FlagStore.GetSegmentReadsItsPair | backend/internal/store/segment.go:161-166 | reading a segment reads the pair-keyed table |
| FlagStore.GetSegmentIsRightExactlyWhen | backend/internal/store/segment.go:161-166 | reads are right after every log exactly for environment IDs that have no slash or start with one |
| FlagStore.ListingsAreRows | backend/internal/store/segment.go:168-179 | what the flag and segment listings of an environment collect is that environment's row of the table |
| FlagStore.OtherEnvironmentsAreUntouched | backend/internal/store/flag.go:133-177 | a flag command leaves every flag of every other environment as it is |
| FlagStore.SetManyIsAtomic | backend/internal/store/flag.go:250-273 | SetMany, duplicates included, fails exactly when a listed condition does and then changes nothing; otherwise it stores, under exactly the requested environments and one revision, the definition unchanged but for the environment and the store-owned fields, returns what Get reads and overwrites nothing |
| Documents.ConditionsRoundTrip | backend/internal/store/flag.go:79-86 | a condition forest survives encoding exactly when no `omitempty` slice in it is empty but not nil |
| Documents.FlagRoundTrip | backend/internal/store/flag.go:41-56 | a flag survives encoding exactly when it is canonical in that sense |
| Documents.SegmentRoundTrip | backend/internal/store/segment.go:36-55 | a segment survives encoding exactly when it is canonical |
| Documents.SmallRecordsRoundTrip | backend/internal/store/user.go:19-26 | users, groups and credentials survive exactly when canonical, audit entries always |
| Documents.ConditionsAreRead | backend/internal/store/flag.go:79-86 | conditions are read as their documents say, field by field and group by group, an absent or null field as its zero value |
| Documents.ConditionsAreTrimmed | backend/internal/store/flag.go:79-86 | a trip through JSON turns empty slices of conditions into nil, at any depth, and changes nothing else |
| Documents.FlagIsTrimmed | backend/internal/store/flag.go:41-86 | a flag keeps every field and every rule through the trip, but for such slices |
| Documents.SegmentIsTrimmed | backend/internal/store/segment.go:36-55 | so does a segment |
| Documents.SmallRecordsAreTrimmed | backend/internal/store/group.go:20-28 | users, groups and credentials keep every field but that their empty slices become nil |
| Snapshots.StateRoundTrip | backend/internal/store/fsm.go:111-144 | a state survives Persist and Restore exactly when all its records are canonical |
| Snapshots.DocumentIsRefusedExactlyWhen | backend/internal/store/fsm.go:164-187 | a decoded document is refused exactly when it has none of the keys for flags, users and groups, or a flag of it has no environment or no type |
| Snapshots.DocumentIsReadAsItSays | backend/internal/store/fsm.go:188-224 | an accepted document of whatever age is read record by record under its own keys and field by field as it says, a map that is missing or null as an empty one |
| Snapshots.CanonicalCommandsArrive | backend/internal/store/fsm.go:82-90 | a command reaches Apply as it was submitted exactly when its payload is canonical |
| Snapshots.CommittedRunsAreCanonical | backend/internal/store/fsm.go:82-90 | every state reached by applying decoded commands is canonical |
| Snapshots.ReachableSnapshotIsAccepted | backend/internal/store/fsm.go:146-187 | Restore accepts the snapshot of every reachable state |
| Snapshots.SnapshotIsAcceptedExactlyWhen | backend/internal/store/fsm.go:146-187 | after any log whatever the snapshot is accepted exactly when no flag sits in an environment with the empty ID |
| Snapshots.NamedEnvironmentsAreAccepted | backend/internal/store/id.go:10-16 | when no environment is created with the empty ID, every snapshot is accepted |
| Snapshots.SnapshotEqualsReplay | backend/internal/store/fsm.go:123-236 | for every log whatever and every cut, the snapshot restores the state at the cut, the rest replays to the same state and responses, and it is accepted exactly when no flag sits in an environment with the empty ID |
| Snapshots.EmptyEnvironmentIdIsRefused | backend/internal/store/fsm.go:175-187 | with an empty environment ID the store's own snapshot is refused |
| Replica.AnyValue | backend/internal/store/flag.go:201-208 | a scan in arbitrary order finds a hit exactly when there is one |
| Replica.Fsm.constructor | backend/internal/store/fsm.go:67-77 | a new replica is empty |
| Replica.Fsm.IsReferenced | backend/internal/store/segment.go:98-112 | the scan of flags decides whether a segment is named |
| Replica.Fsm.IsSoleAdmin | backend/internal/store/user.go:57-70 | the scan of users decides whether one is the only active admin |
| Replica.Fsm.GetUserByUsername | backend/internal/store/user.go:87-97 | returns some user of that name, or none when there is none |
| Replica.Fsm.ValidateBatch | backend/internal/store/flag.go:150-163 | the validation loop returns the error of the first bad entry |
| Replica.Fsm.ApplyBatch | backend/internal/store/flag.go:149-170 | the batch loops do what the batch step does |
| Replica.Fsm.ApplyFlagOp | backend/internal/store/flag.go:133-177 | updates the flag map in place exactly as the flag step |
| Replica.Fsm.ApplySegmentOp | backend/internal/store/segment.go:132-159 | updates the segment map exactly as the segment step |
| Replica.Fsm.ApplyUserOp | backend/internal/store/user.go:28-51 | updates the user map exactly as the user step, whatever the scan order |
| Replica.Fsm.ApplyGroupOp | backend/internal/store/group.go:30-48 | updates the group map exactly as the group step |
| Replica.Fsm.ApplyAuditOp | backend/internal/store/audit.go:28-37 | appends under the log index exactly as the audit step |
| Replica.Fsm.ApplyEnvironmentOp | backend/internal/store/environment.go:40-65 | updates the environment map exactly as the environment step |
| Replica.Fsm.ApplyCredentialOp | backend/internal/store/application_credential.go:22-37 | updates the credential map exactly as the credential step |
| Replica.Fsm.Apply | backend/internal/store/fsm.go:82-109 | state and response are those of the step function |
| Replica.Fsm.Replay | backend/internal/store/fsm.go:79-109 | applying a log gives the state and responses of the run |
| Replica.Fsm.ListFlags | backend/internal/store/flag.go:186-197 | lists exactly the environment's flags, by key in byte order |
| Replica.Fsm.ListSegments | backend/internal/store/segment.go:168-179 | lists exactly the environment's segments, by key in byte order |
| Replica.Fsm.ListEnvironments | backend/internal/store/environment.go:74-91 | lists all environments by order, then ID |
| Replica.Fsm.ListAudits | backend/internal/store/audit.go:75-88 | lists exactly the matching entries, newest first |
| Replica.Fsm.Snapshot | backend/internal/store/fsm.go:123-144 | produces the document of the whole state |
| Replica.Fsm.Restore | backend/internal/store/fsm.go:146-224 | refuses exactly the unacceptable files, each with its error, and then changes nothing; otherwise installs the decoded state |
| Replica.ListingsAreUnique | backend/internal/store/environment.go:74-91 | a reachable state has one listing of flags, segments, environments and audits each |
| Replica.TwoReplicasAgree | backend/internal/store/fsm.go:79-109 | two replicas that apply one log agree on responses, state and their listings of flags, segments, environments and audits, whatever order they walk maps in |
| Replica.RestoredReplicaCatchesUp | backend/internal/store/fsm.go:123-236 | a replica restored from a snapshot, whenever it accepts it, and one that replayed everything end in the same state |
| Replica.UsernameHitIsUnique | backend/internal/store/user.go:87-97 | in a reachable state a lookup by username has one possible answer |
| Permissions.ResolveUser | backend/internal/auth/permissions.go:130-151 | the early-exit loop computes the order-independent union, or all access |
| Permissions.AuthenticateService | backend/internal/auth/service.go:256-275 | an active credential resolves to exactly its own scopes and environment, never to all access |
| Permissions.CredentialAccessIsItsOwn | backend/internal/auth/service.go:256-275 | a token of an unknown or inactive credential gets no access; any other gets exactly the permissions among its scopes, in its own environment |
| Permissions.UserAccessIsTheGroups | backend/internal/auth/permissions.go:116-151 | an unknown or inactive user gets no access; any other gets everything exactly with the System Admin group, and else a permission or an environment exactly when a known group of the user lists it |
| Permissions.DeletedCredentialIsNobody | backend/internal/store/application_credential.go:31-33 | right after its deletion a credential gets no access |
| Permissions.AdminMeansActiveMember | backend/internal/auth/permissions.go:116-151 | a user resolves to admin exactly when active and in the Admin group, with that group a System group |
| Permissions.AdministrationMeansAnAdmin | backend/internal/auth/permissions.go:116-151 | administration is there exactly when some user resolves to admin |
| Bootstrap.SeedAdminGroupAndUserOnce | backend/internal/auth/bootstrap.go:45-86 | the get-then-set code does what one attempt is specified to do |
| Bootstrap.SeedAdminGroupAndUser | backend/internal/auth/bootstrap.go:30-43 | the retry loop does what SeedAll specifies, which the rows below characterise, giving up without an error included |
| Bootstrap.SeedingWorksExactlyWhen | backend/internal/auth/bootstrap.go:45-86 | from any reachable state: an attempt leaves administration exactly when it finds or writes the System group and finds an active member or a free username it leads to write; it is to be retried exactly when a write is due and the node does not lead |
| Bootstrap.SeedingWrites | backend/internal/auth/bootstrap.go:45-86 | an attempt writes the Admin group exactly where it is missing and the node leads, the configured active administrator exactly where the group is there, the name free and the node leading, and nothing else |
| Bootstrap.SeedingStopsAtATakenUsername | backend/internal/auth/bootstrap.go:61-63 | after a log that stores someone else under the configured username, seeding succeeds and leaves no administrator |
| Bootstrap.SeedingTrustsAnOrdinaryGroup | backend/internal/auth/bootstrap.go:46-51 | after a log that stores an ordinary group under the Admin ID, likewise |
| Bootstrap.SeedingKeepsAdministration | backend/internal/auth/bootstrap.go:45-86 | re-seeding a state with administration keeps it, and the invariant |
| Bootstrap.LoopWorksExactlyWhen | backend/internal/auth/bootstrap.go:30-43 | whatever arrives between attempts, the loop keeps the invariant, reports no error and leaves administration exactly when the last attempt it makes finds a state it can seed |
| Bootstrap.QuietLoopWorksExactlyWhen | backend/internal/auth/bootstrap.go:30-86 | on a reachable store nothing else writes to, the loop leaves administration exactly when the store and the attempts that led allow it, stated without running the loop |
| Bootstrap.EmptyStoreIsSeededExactlyWhen | backend/internal/auth/bootstrap.go:30-86 | an empty store is seeded exactly when an attempt led for the user and it or an earlier one led for the group |
| Bootstrap.GivingUpLooksLikeSuccess | backend/internal/auth/bootstrap.go:37-40 | a node that never leads for the group leaves the store as it was, without an administrator, and reports no error |
| Bootstrap.AdministrationIsNeverLost | backend/internal/auth/bootstrap.go:30-86 | from a store the retry loop seeded, over however many attempts and arrivals, after any commands and re-seedings some user still resolves to admin |
| Bootstrap.SeededOnceIsSeededForGood | backend/internal/auth/bootstrap.go:30-86 | the same from an empty store nothing else writes to, once an attempt led for the user and it or an earlier one for the group |
| Repositories.UserSetCheckAgrees | backend/internal/store/user.go:130-152 | in a reachable state the pre-check fails with exactly the error Apply would give, whatever user the scan hits first |
| Repositories.UserSetCheckNeedsUniqueNames | backend/internal/store/user.go:132-138 | without unique usernames the pre-check and Apply can differ |
| Repositories.SetUser | backend/internal/store/user.go:130-152 | the repository call is the command itself, or its error, or "not the leader" |
| Repositories.DeleteUser | backend/internal/store/user.go:154-168 | the same for deleting a user |
| Repositories.SetGroup | backend/internal/store/group.go:83-102 | the same for writing a group |
| Repositories.DeleteGroup | backend/internal/store/group.go:104-118 | the same for deleting a group |
| Repositories.DeleteEnvironment | backend/internal/store/environment.go:125-151 | the same for deleting an environment, checks in the same order |
| Repositories.HappeningIsHarmless | backend/internal/store/fsm.go:82-109 | one stale read or one late write keeps what RunMakesProgress says of a run |
| Repositories.StaleClientsAreHarmless | backend/internal/store/user.go:130-168 | however stale reads and later writes interleave, the result is that of a run of some log, so the invariant holds and every statement about runs |
| CredentialPinning.PutHandler | backend/internal/api/application_credentials.go:219-273 | the override code settles on what the handler is specified to |
| CredentialPinning.PostStores | backend/internal/api/application_credentials.go:162-217 | a creation stores an active credential with the secret, environment and scopes given; it stores nothing exactly without a name, a known and permitted environment and catalog scopes |
| CredentialPinning.PutStores | backend/internal/api/application_credentials.go:219-278 | an update stores the new name, and scopes and activity where given, and keeps secret and environment; it stores nothing exactly under the listed conditions |
| CredentialPinning.RotateStores | backend/internal/api/application_credentials.go:301-338 | a rotation stores the new secret and keeps everything else |
| CredentialPinning.RemoveDrops | backend/internal/api/application_credentials.go:280-299 | a removal drops the credential and no other, exactly when it is known and its environment permitted |
| CredentialPinning.DecisionsAreSound | backend/internal/api/application_credentials.go:162-338 | a handler only settles on a credential with the environment of its creation and catalog scopes |
| CredentialPinning.SchedulesAreSound | backend/internal/api/application_credentials.go:162-338 | so does every stored and every pending credential, in every interleaving |
| CredentialPinning.CredentialNeverChangesEnvironment | backend/internal/api/application_credentials.go:263-273 | all records ever stored under one ID carry one environment and only catalog scopes |
| EnvironmentOrder.NextOrder | backend/internal/api/environments.go:89-103 | one past the highest order in use, or 0 |
| EnvironmentOrder.NextEnvironmentOrder | backend/internal/api/environments.go:95-103 | the loop over the listing computes it |
| EnvironmentOrder.CreateStores | backend/internal/api/environments.go:105-134 | a creation stores the name and colour given with an order one past the highest; it stores nothing exactly without a name or with a bad colour |
| EnvironmentOrder.UpdateStores | backend/internal/api/environments.go:136-177 | an update stores the new name, and the colour where given, and keeps the order |
| EnvironmentOrder.DeleteDrops | backend/internal/api/environments.go:179-190 | a deletion drops the environment and no other, exactly when it is known, not the last and nothing is in it |
| EnvironmentOrder.RequestsKeepOrder | backend/internal/api/environments.go:105-190 | over any sequential run orders increase with creation |
| EnvironmentOrder.ListIsInCreationOrder | backend/internal/api/environments.go:124-172 | the listing is exactly the survivors in creation order, with distinct orders |
| EnvironmentOrder.StaleCreationKeepsOrdersDistinctExactlyWhen | backend/internal/api/environments.go:124-129 | a creation whose order was read earlier keeps orders distinct exactly when none has come to use that order |
| EnvironmentOrder.StaleCreationKeepsCreationOrderExactlyWhen | backend/internal/api/environments.go:124-129 | it keeps creation order exactly when every environment in use by then has a lower order |
| EnvironmentOrder.OverlappingCreationsCollide | backend/internal/api/environments.go:95-134 | two creations that read the same state, whatever it is, get equal orders |
| UserRequests.AdminChangeAllowed | backend/internal/api/users.go:145-163 | a change is allowed exactly to admins, or when no group set has the Admin group |
| UserRequests.PutHandler | backend/internal/api/users.go:165-238 | the override code settles on what the handler is specified to |
| UserRequests.CreateUserStores | backend/internal/api/users.go:89-143 | a creation stores an active user with the name, password and groups given; it changes nothing exactly without the permission, a name, a password, known groups or a free name, or when a non-admin names the Admin group |
| UserRequests.UpdateUserStores | backend/internal/api/users.go:165-243 | an update stores the name, and password, groups and activity where given, the earlier ones where not, and touches nobody else; it changes nothing exactly under the listed conditions |
| UserRequests.DeleteUserRequestDrops | backend/internal/api/users.go:245-261 | a deletion drops the user and nobody else, exactly for an admin with the permission and a known user who is not the only active admin |
| UserRequests.CreateGroupStores | backend/internal/api/groups.go:86-118 | a creation stores an ordinary group with the name, permissions and environments given, exactly with the permission and a payload that names known ones |
| UserRequests.UpdateGroupStores | backend/internal/api/groups.go:120-160 | an update replaces these fields of a known ordinary group under the same conditions |
| UserRequests.DeleteGroupRequestDrops | backend/internal/api/groups.go:162-174 | a deletion drops a known ordinary group and no other, exactly with the permission |
| UserRequests.NonAdminDecision | backend/internal/api/users.go:89-261 | a non-admin never gets a handler to write a user who is an active admin before or after, or to delete one |
| UserRequests.NonAdminRequestKeepsAdmins | backend/internal/api/groups.go:86-174 | one user or group request of a principal that is no admin, user or application credential, keeps the set of admins |
| UserRequests.NonAdminsCannotChangeAdmins | backend/internal/api/users.go:145-261 | from a seeded state, any sequential run of user and group requests of users who are no admins at its start and of credentials of any scopes leaves the set of admins as it was |
| UserRequests.StaleRequestKeepsAdminsExactlyWhen | backend/internal/api/users.go:165-238 | a non-admin's request decided earlier and committed later keeps the set of admins exactly when the user it writes has not become an active Admin member meanwhile, or is now the only one, or another user has taken the name |
| UserRequests.OverlapUndoesAPromotion | backend/internal/api/users.go:195-238 | in any seeded state, a non-admin's update that overlaps the promotion of its user undoes it |
| Decimal.UintRoundTrip | backend/internal/api/audits.go:22-30 | a formatted number parses back to itself exactly when it fits 64 bits |
| Decimal.IntRoundTrip | backend/internal/api/pagination.go:43-48 | the same for signed numbers |
| Decimal.DigitsAreDecimal | backend/internal/api/pagination.go:43-48 | a text of digits means the number whose decimal digits these are |
| Decimal.NumbersExactlyWhen | backend/internal/api/audits.go:22-30 | a text is a number exactly when it is one digit or more, within 64 bits, behind at most one sign where a sign is allowed |
| OffsetPages.ParseLimit | backend/internal/api/pagination.go:25-32 | whatever the query, the limit is between 1 and 100 |
| OffsetPages.LimitIsHonouredExactlyInRange | backend/internal/api/pagination.go:25-32 | every number from 1 to 100 is taken as it is written; every other number, and no number, means 25 |
| OffsetPages.Paginate | backend/internal/api/pagination.go:34-63 | everything without parameters, a refusal exactly for cursors outside the list, else the rows at the cursor with exact row numbers and neighbours |
| OffsetPages.WalkVisitsEachItemOnce | backend/internal/api/pagination.go:34-63 | following nextCursor, with any limits, is never refused, visits each item once in order, and is over exactly when all were shown, after at most one request per item |
| OffsetPages.WalkTheList | backend/internal/api/pagination_test.go:105-126 | a client that follows nextCursor to the end gets exactly the list, and stops |
| OffsetPages.IssuedCursorsAreAccepted | backend/internal/api/pagination.go:43-61 | every cursor given out is accepted again on the same list |
| OffsetPages.NextThenPrevious | backend/internal/api/pagination.go:56-61 | on and back again shows the same page |
| AuditPages.SearchBelow | backend/internal/api/audits.go:45-49 | the binary search finds the first entry below the cursor |
| AuditPages.PageOf | backend/internal/api/audits.go:45-63 | the page begins below the cursor, with exact rows and cursors, every index in range |
| AuditPages.AuditsGet | backend/internal/api/audits.go:20-69 | the cursor is refused exactly when malformed, then the time range; else the answer is a page of exactly the stored entries that agree with each parameter given (target type, target ID, actor ID, from, to), newest first |
| AuditPages.QueryListsExactly | backend/internal/api/audits.go:32-44 | the listing of a query holds exactly the stored entries that agree with it parameter by parameter, newest first |
| AuditPages.NextAuditPage | backend/internal/api/audits.go:45-63 | a next cursor finds its place in any later view, past the newer entries |
| AuditPages.WalkShowsTheFirstView | backend/internal/api/audits.go:38-63 | the pages of a walk over growing views are the first view, each entry once, newest first, and end exactly there |
| AuditPages.PreviousGoesBack | backend/internal/api/audits.go:57-60 | the previous cursor leads exactly one limit back, whatever was appended meanwhile and even where ID + 1 wraps around |
| AuditPages.NextThenPreviousAudits | backend/internal/api/audits.go:57-63 | on and back again shows the same page, whatever was appended before either request |
| AuditPages.LaterListingGrows | backend/internal/store/audit.go:77-88 | what a filter lists later is what it listed before with only newer entries in front |
| AuditPages.WalkOverAGrowingLog | backend/internal/api/audits.go:38-63 | with any commands committed between requests, a walk shows exactly the matching entries of its first request |
| AuditPages.NextRequest | backend/internal/api/audits.go:20-69 | a request with an issued cursor, after anything else was applied, shows the next entries of the first listing and at least one |
| AuditPages.WalkTheAudits | backend/internal/api/audits.go:38-63 | a client that follows nextCursor while a replica goes on applying entries stops with exactly the stored entries of the moment it began that agree with each parameter |
| AuditTrail.AuditRecorder.constructor | backend/internal/api/audit_middleware.go:133-135 | a new recorder has seen nothing |
| AuditTrail.AuditRecorder.WriteHeader | backend/internal/api/audit_middleware.go:139-145 | only the first status counts |
| AuditTrail.AuditRecorder.Write | backend/internal/api/audit_middleware.go:147-152 | appends, and settles on 200 when there is no status yet |
| AuditTrail.AuditRecorder.Play | backend/internal/api/audit_middleware.go:123-152 | after any sequence of calls the recorder holds the status and body that were sent |
| AuditTrail.WithAudit | backend/internal/api/audit_middleware.go:32-121 | buffers, commits the handler's commands, appends one entry with the request's own action, target, actor and time and what the client was told, and only then answers; a failed append answers 500 |
| AuditTrail.RepliesExactly | backend/internal/api/audit_middleware.go:32-66 | the buffered answer goes out exactly when the entry was appended; a body too large is answered 413 and an unreadable one 400, and neither commits anything |
| AuditTrail.CommitsAreKept | backend/internal/api/audit_middleware.go:32-121 | what the handler committed is there afterwards, and recording adds to the audit log only |
| AuditTrail.TrailMatchesTheReplies | backend/internal/api/audit_middleware.go:24-121 | over any sequential run each answered request is on record with its own entry: its action, target, actor and time, the status answered, success exactly for 2xx, and the before and after or the error that go with it; the log gains nothing else |
| AuditTrail.RecordingIsOnRecord | backend/internal/api/audit_middleware.go:85-120 | however requests overlap, in every log that holds the recording of a request it is on record with all these fields |
| Frames.Big32Inverts | backend/internal/fqdp/server.go:82-88 | reading a written length gives its low 32 bits, and writing a read one gives the same bytes |
| Frames.BytesByWeight | backend/internal/fqdp/server.go:88 | lengths and codes are big-endian: the weight of each byte, written and read |
| Frames.ReadNext | backend/internal/fqdp/server.go:82-101 | a returned frame consumes input |
| Frames.Stream.ReadFull | backend/internal/fqdp/server.go:82-86 | all bytes asked for, or an error that tells an empty stream from a short one |
| Frames.Stream.ReadFrame | backend/internal/fqdp/server.go:82-101 | takes the length from four bytes, most significant first, and returns that many bytes; too long, cut off and ended streams are told apart |
| Frames.FrameIsReadExactlyWhenWhole | backend/internal/fqdp/server.go:82-101 | a frame is returned exactly for streams that begin with it whole and within 10 MiB |
| Frames.FramesReadBack | backend/internal/fqdp/server.go:82-143 | any frames written one after another are read back in order, and what follows is read as if alone |
| Frames.FramesAreTheBeginning | backend/internal/fqdp/server.go:82-101 | of arbitrary bytes, the frames read re-encode to what the stream begins with, and no whole frame is left |
| Frames.ConnectionEndsCleanlyExactlyWhen | backend/internal/fqdp/server.go:56-101 | a whole connection ends cleanly exactly when it is frames within the limit and then nothing, or one more valid length and no payload |
| Frames.PutUint16 | backend/internal/fqdp/server.go:136-137 | overwrites two bytes in place, most significant first, and no others |
| Frames.PutUint32 | backend/internal/fqdp/server.go:134 | overwrites four bytes in place, most significant first, and no others |
| Frames.SendError | backend/internal/fqdp/server.go:130-143 | the buffer filled in place is the encoded error payload, byte by byte |
| Frames.ErrorReadsBackExactlyWhenShort | backend/internal/fqdp/server.go:130-138 | an error decodes by its own fields exactly when its message is shorter than 65536 bytes |
| Frames.ErrorFrameIsReadExactlyWhenWithinLimit | backend/internal/fqdp/server.go:82-143 | an error frame is read back exactly when its message fits the frame limit |
| Frames.RepliesAreShort | backend/internal/fqdp/server.go:73-127 | whatever the frames, every reply has one of the four codes and a message shorter than 100 bytes |
| Frames.ReplyToEachKind | backend/internal/fqdp/server.go:73-128 | what is no handshake is answered 100, a handshake too short for its fields 101, one too short for its token 102 and a whole one 103, each with its text |
| Frames.RepliesOneByOne | backend/internal/fqdp/server.go:61-79 | frames that are not empty are answered one by one in order |
| Frames.EmptyFramesAreSkipped | backend/internal/fqdp/server.go:69-71 | an empty frame anywhere changes no reply |
| Frames.TokenIsFoundExactlyWhenWhole | backend/internal/fqdp/server.go:103-121 | a handshake is parsed exactly when its version bytes are there and its token is there whole behind its length |
| Frames.HandleHandshake | backend/internal/fqdp/server.go:103-128 | the version bytes, the length and the token are taken in bounds from every payload and are the parsed handshake; the reply says short, truncated or not implemented |
| Frames.ServeConnection | backend/internal/fqdp/server.go:56-80 | writes one error frame per frame that is not empty, in order, until the stream stops |
| Frames.ClientReadsEveryReply | backend/internal/fqdp/server.go:56-143 | whatever a client sends, what it gets back reads as exactly those errors and then a clean end |

## Left out

- Raft, BoltDB, transport, leader election and the future handling of `Store.apply`:
  the committed log is given, "not the leader" commits nothing. A timed-out write
  that commits later is not modelled.
- JSON text: documents and commands are modelled field by field (absent, null,
  present; nil and empty slices). Raw JSON values are opaque and already
  normalised. Duplicate or unknown fields and number syntax are not modelled.
- Error messages: errors are their sentinels. HTTP error codes and message texts
  are left out except for the four texts the FQDP server sends.
- Unbounded integers stand for orders, weights, revisions and versions; uint64 and
  the conversions to uint16 and uint32 are explicit where cursors and frames use
  them.
- bcrypt, JWT, random IDs and secrets, clocks, the OAuth endpoint.
- The mutex.
- In documents the store did not write, fields without `omitempty` are taken to be
  there, but for the flag environment and type that Restore looks at.
- The FQDP session protocol, evaluator and binary codec, which do not exist yet;
  accepting connections and failed writes to one.
- Simple getters, user, group and credential listings, colour normalisation,
  trimming and lower-casing of names, the legacy flag view, configuration, `ui/`.
- ListIsInCreationOrder: sequential requests; what one overlapping creation does is
  in EnvironmentOrder, runs of them are not.
- NonAdminsCannotChangeAdmins: sequential requests; a single overlapping request is
  in UserRequests, runs of them are not.
- TrailMatchesTheReplies: sequential requests (RecordingIsOnRecord is not); the
  redaction and the target ID probing of response bodies are parameters.
- SeedAdminGroupAndUserOnce: nothing is applied between the lookups of an attempt and
  its writes.
- AuditsGet: the text of the times and the nested JSON view of an entry are left out.
- WithAudit: response headers are left out.
- FitsMemory: offset cursors assume that a list length plus a page limit fits a
  64-bit integer.
