/** Seeding the Admin group and the first administrator, and why administration
    is never lost afterwards (backend/internal/auth/bootstrap.go). */
module Bootstrap {
  import opened Records
  import opened Machine
  import opened Commands
  import opened Invariants
  import opened Replica
  import opened Permissions

  /** One attempt: whether the node leads at either write, and the fresh user ID
      and hash. Its two possible writes commit at `index` and `index + 1`. */
  datatype Attempt = Attempt(
    index: nat, leadsForGroup: bool, leadsForUser: bool, passwordHash: Slice<Byte>, newId: string)

  /** An attempt of the retry loop, and the log entries that reach this replica
      before it. */
  datatype Try = Try(arrivals: seq<Entry>, attempt: Attempt)

  const ADMIN_GROUP := Group(ADMIN_GROUP_ID, "Admin", Nil, Nil, true, 0)

  function AdminUser(username: string, a: Attempt): User {
    User(a.newId, username, a.passwordHash, Of([ADMIN_GROUP_ID]), true, 0)
  }

  function GroupEntry(a: Attempt): Entry {
    Entry(a.index, GroupCommand(Set(ADMIN_GROUP)))
  }

  function UserEntry(username: string, a: Attempt): Entry {
    Entry(a.index + 1, UserCommand(Set(AdminUser(username, a))))
  }

  /** seedAdminGroupAndUserOnce as a function of the state it finds. */
  ghost function SeedOnce(s: State, username: string, a: Attempt): Outcome {
    if ADMIN_GROUP_ID !in s.groups && !a.leadsForGroup then Fail(s, ErrNotLeader)
    else
      var withGroup := if ADMIN_GROUP_ID in s.groups then s else Step(s, GroupEntry(a)).state;
      if UsernameKnown(withGroup, username) then Outcome(withGroup, Done)
      else if !a.leadsForUser then Fail(withGroup, ErrNotLeader)
      else
        var o := Step(withGroup, UserEntry(username, a));
        if o.response.Failed? then o else Outcome(o.state, Done)
  }

  /** The retry loop: again while the only trouble is leadership, for as many
      attempts as fit before the deadline; after that it gives up without an
      error. */
  ghost function SeedAll(s: State, username: string, tries: seq<Try>): Outcome
    decreases |tries|
  {
    if tries == [] then Outcome(s, Done)
    else
      var o := SeedOnce(Run(s, tries[0].arrivals), username, tries[0].attempt);
      if o.response == Failed(ErrNotLeader) then SeedAll(o.state, username, tries[1..]) else o
  }

  method SeedAdminGroupAndUserOnce(fsm: Fsm, username: string, a: Attempt) returns (r: Response)
    modifies fsm
    ensures Outcome(fsm.Abs(), r) == SeedOnce(old(fsm.Abs()), username, a)
  {
    if ADMIN_GROUP_ID !in fsm.groups {
      if !a.leadsForGroup {
        return Failed(ErrNotLeader);
      }
      r := fsm.Apply(GroupEntry(a));
    }
    var hit := fsm.GetUserByUsername(username);
    if hit.Some? {
      return Done;
    }
    if !a.leadsForUser {
      return Failed(ErrNotLeader);
    }
    r := fsm.Apply(UserEntry(username, a));
    if !r.Failed? {
      r := Done;
    }
  }

  method SeedAdminGroupAndUser(fsm: Fsm, username: string, tries: seq<Try>) returns (r: Response)
    modifies fsm
    ensures Outcome(fsm.Abs(), r) == SeedAll(old(fsm.Abs()), username, tries)
  {
    ghost var s := fsm.Abs();
    var i := 0;
    while i < |tries|
      invariant 0 <= i <= |tries|
      invariant SeedAll(s, username, tries) == SeedAll(fsm.Abs(), username, tries[i..])
    {
      var _ := fsm.Replay(tries[i].arrivals);
      r := SeedAdminGroupAndUserOnce(fsm, username, tries[i].attempt);
      assert tries[i..][1..] == tries[i + 1..];
      if r != Failed(ErrNotLeader) {
        return;
      }
      i := i + 1;
    }
    r := Done;
  }

  // ----- what one attempt achieves -----

  lemma SeedingTheGroup(s: State, last: nat, a: Attempt)
    requires Invariant(s, last) && last < a.index && ADMIN_GROUP_ID !in s.groups
    ensures var t := Step(s, GroupEntry(a)).state;
      && Invariant(t, a.index) && IsSystemGroup(t, ADMIN_GROUP_ID) && t.users == s.users
  {
    StepIsTransition(s, last, GroupEntry(a));
    assert Step(s, GroupEntry(a)) == ApplyGroup(s, a.index, Set(ADMIN_GROUP));
  }

  lemma SeedingTheUser(s: State, last: nat, username: string, a: Attempt)
    requires Invariant(s, last) && last <= a.index && a.newId !in s.users && !UsernameKnown(s, username)
    ensures var o := Step(s, UserEntry(username, a));
      && !o.response.Failed? && Invariant(o.state, a.index + 1)
      && HasActiveAdmin(o.state.users) && o.state.groups == s.groups
  {
    StepIsTransition(s, last, UserEntry(username, a));
    assert Step(s, UserEntry(username, a)) == ApplyUser(s, a.index + 1, Set(AdminUser(username, a)));
    var t := Step(s, UserEntry(username, a)).state;
    assert AdminUser(username, a).groupIds.Elems()[0] == ADMIN_GROUP_ID;
    assert a.newId in t.users && IsActiveAdmin(t.users[a.newId]);
  }

  /** The Admin ID holds a System group once the attempt is over. */
  predicate GroupIsThere(s: State, a: Attempt) {
    if ADMIN_GROUP_ID in s.groups then s.groups[ADMIN_GROUP_ID].system else a.leadsForGroup
  }

  /** What an attempt finds when it can leave administration behind. */
  ghost predicate CanSeed(s: State, username: string, a: Attempt) {
    GroupIsThere(s, a) && (HasActiveAdmin(s.users) || (!UsernameKnown(s, username) && a.leadsForUser))
  }

  /** An attempt is tried again exactly when one of its two writes is due and the
      node does not lead. */
  predicate MustWait(s: State, username: string, a: Attempt) {
    || (ADMIN_GROUP_ID !in s.groups && !a.leadsForGroup)
    || (!UsernameKnown(s, username) && !a.leadsForUser)
  }

  /** What one attempt gives from any reachable state, whatever it reports. */
  lemma SeedingWorksExactlyWhen(s: State, last: nat, username: string, a: Attempt)
    requires Invariant(s, last) && last < a.index && a.newId !in s.users
    ensures Invariant(SeedOnce(s, username, a).state, a.index + 1)
    ensures HasAdministration(SeedOnce(s, username, a).state) <==> CanSeed(s, username, a)
    ensures SeedOnce(s, username, a).response == if MustWait(s, username, a) then Failed(ErrNotLeader) else Done
    ensures MustWait(s, username, a) ==> SeedOnce(s, username, a).state.users == s.users
    ensures ADMIN_GROUP_ID in SeedOnce(s, username, a).state.groups <==> ADMIN_GROUP_ID in s.groups || a.leadsForGroup
    ensures IsSystemGroup(SeedOnce(s, username, a).state, ADMIN_GROUP_ID) <==> GroupIsThere(s, a)
  {
    hide Step, Invariant;
    InvariantIsMonotone(s, last, a.index);
    InvariantIsMonotone(s, last, a.index + 1);
    var withGroup := s;
    if ADMIN_GROUP_ID !in s.groups {
      SeedingTheGroup(s, last, a);
      withGroup := Step(s, GroupEntry(a)).state;
      InvariantIsMonotone(withGroup, a.index, a.index + 1);
    }
    if !UsernameKnown(withGroup, username) {
      SeedingTheUser(withGroup, a.index, username, a);
    }
  }

  /** What an attempt writes, record by record: the Admin group where it is
      missing and the node leads, the configured user where the name is free, the
      group is there and the node leads, and nothing else. */
  lemma SeedingWrites(s: State, username: string, a: Attempt)
    requires a.newId !in s.users
    ensures var t := SeedOnce(s, username, a).state;
      if "admin" in s.groups || !a.leadsForGroup then t.groups == s.groups
      else Puts(s.groups, t.groups, "admin", Group("admin", "Admin", Nil, Nil, true, a.index))
    ensures var t := SeedOnce(s, username, a).state;
      if ("admin" in s.groups || a.leadsForGroup) && a.leadsForUser && !(exists id :: id in s.users && s.users[id].username == username) then
        Puts(s.users, t.users, a.newId, User(a.newId, username, a.passwordHash, Of(["admin"]), true, a.index + 1))
      else t.users == s.users
  {
    hide Step, Puts;
    SetGroupStores(s, a.index, ADMIN_GROUP);
    OthersStay(s, GroupEntry(a));
    var withGroup := if "admin" in s.groups then s else Step(s, GroupEntry(a)).state;
    SetUserStores(withGroup, a.index + 1, AdminUser(username, a));
    OthersStay(withGroup, UserEntry(username, a));
  }

  /** An attempt succeeds without an administrator when someone who is not one
      has the configured username already. */
  lemma SeedingStopsAtATakenUsername(username: string, a: Attempt, bob: User)
    requires bob.username == username && !IsActiveAdmin(bob) && a.leadsForGroup && 1 < a.index
    ensures var log := [Entry(1, UserCommand(Set(bob)))];
      && IsLog(log, 0)
      && SeedOnce(Run(EMPTY_STATE, log), username, a).response == Done
      && !HasAdministration(SeedOnce(Run(EMPTY_STATE, log), username, a).state)
  {
    var entry := Entry(1, UserCommand(Set(bob)));
    assert [entry][..0] == [];
    var s := Step(EMPTY_STATE, entry).state;
    assert s == EMPTY_STATE.(users := map[bob.id := bob.(version := 1)]);
    assert Run(EMPTY_STATE, [entry]) == s;
    var t := Step(s, GroupEntry(a)).state;
    assert t.users == s.users && bob.id in t.users && t.users[bob.id].username == username;
    assert UsernameKnown(t, username);
  }

  /** The same when an ordinary group has the Admin ID: the administrator is
      created and is none. */
  lemma SeedingTrustsAnOrdinaryGroup(username: string, a: Attempt, group: Group)
    requires group.id == ADMIN_GROUP_ID && !group.system && a.leadsForUser && 1 < a.index
    ensures var log := [Entry(1, GroupCommand(Set(group)))];
      && IsLog(log, 0)
      && SeedOnce(Run(EMPTY_STATE, log), username, a).response == Done
      && !HasAdministration(SeedOnce(Run(EMPTY_STATE, log), username, a).state)
  {
    var entry := Entry(1, GroupCommand(Set(group)));
    assert [entry][..0] == [];
    var s := Step(EMPTY_STATE, entry).state;
    assert s == EMPTY_STATE.(groups := map[group.id := group.(version := 1)]);
    assert Run(EMPTY_STATE, [entry]) == s && ADMIN_GROUP_ID in s.groups;
    assert Step(s, UserEntry(username, a)) == ApplyUser(s, a.index + 1, Set(AdminUser(username, a)));
  }

  /** An attempt is nothing but at most two ordinary commands. */
  lemma SeedingKeepsAdministration(s: State, last: nat, username: string, a: Attempt)
    requires Invariant(s, last) && last < a.index && HasAdministration(s)
    ensures Invariant(SeedOnce(s, username, a).state, a.index + 1) && HasAdministration(SeedOnce(s, username, a).state)
  {
    hide Invariant;
    InvariantIsMonotone(s, last, a.index);
    InvariantIsMonotone(s, last, a.index + 1);
    StepIsTransition(s, a.index, UserEntry(username, a));
  }

  // ----- what the retry loop achieves -----

  /** The log grows from one attempt to the next, and NewID is fresh. */
  ghost predicate CanTry(s: State, last: nat, username: string, tries: seq<Try>)
    decreases |tries|
  {
    tries != [] ==>
      var found, a := Run(s, tries[0].arrivals), tries[0].attempt;
      && IsLog(tries[0].arrivals, last) && LastIndex(tries[0].arrivals, last) < a.index && a.newId !in found.users
      && CanTry(SeedOnce(found, username, a).state, a.index + 1, username, tries[1..])
  }

  function IndexAfterTries(tries: seq<Try>, last: nat): nat {
    if tries == [] then last else tries[|tries| - 1].attempt.index + 1
  }

  /** The last attempt the loop makes, and the state it finds: the first one that
      need not wait, or else the one before the deadline. */
  ghost function LastMade(s: State, username: string, tries: seq<Try>): (State, Attempt)
    requires tries != []
    decreases |tries|
  {
    var found, a := Run(s, tries[0].arrivals), tries[0].attempt;
    if |tries| == 1 || !MustWait(found, username, a) then (found, a)
    else LastMade(SeedOnce(found, username, a).state, username, tries[1..])
  }

  lemma TryKeepsInvariant(s: State, last: nat, username: string, tries: seq<Try>, found: State, t: Outcome)
    requires Invariant(s, last) && tries != [] && CanTry(s, last, username, tries)
    requires found == Run(s, tries[0].arrivals) && t == SeedOnce(found, username, tries[0].attempt)
    ensures var a := tries[0].attempt;
      && Invariant(t.state, a.index + 1) && a.index + 1 <= IndexAfterTries(tries, last)
      && CanTry(t.state, a.index + 1, username, tries[1..])
      && t.response == (if MustWait(found, username, a) then Failed(ErrNotLeader) else Done)
      && (HasAdministration(t.state) <==> CanSeed(found, username, a))
  {
    hide Invariant, HasAdministration, Run, Step, SeedOnce, MustWait, CanSeed;
    RunMakesProgress(s, last, tries[0].arrivals);
    ProgressHasInvariant(s, last, found, LastIndex(tries[0].arrivals, last));
    SeedingWorksExactlyWhen(found, LastIndex(tries[0].arrivals, last), username, tries[0].attempt);
    IndexesOfTriesGrow(t.state, tries[0].attempt.index + 1, username, tries[1..]);
  }

  lemma ProgressHasInvariant(s: State, last: nat, t: State, index: nat)
    requires Progress(s, last, t, index)
    ensures Invariant(t, index) && last <= index
  {
  }

  lemma {:induction false} IndexesOfTriesGrow(s: State, last: nat, username: string, tries: seq<Try>)
    requires CanTry(s, last, username, tries)
    ensures last <= IndexAfterTries(tries, last)
    decreases |tries|
  {
    hide Run, SeedOnce;
    if tries != [] {
      var found, a := Run(s, tries[0].arrivals), tries[0].attempt;
      IndexesOfTriesGrow(SeedOnce(found, username, a).state, a.index + 1, username, tries[1..]);
    }
  }

  /** Whatever arrives between the attempts: the loop never reports an error, and
      it leaves administration behind exactly when the last attempt it makes
      finds a state it can seed. */
  lemma {:induction false} LoopWorksExactlyWhen(s: State, last: nat, username: string, tries: seq<Try>)
    requires Invariant(s, last) && tries != [] && CanTry(s, last, username, tries)
    ensures Invariant(SeedAll(s, username, tries).state, IndexAfterTries(tries, last))
    ensures SeedAll(s, username, tries).response == Done
    ensures HasAdministration(SeedAll(s, username, tries).state)
       <==> var made := LastMade(s, username, tries); CanSeed(made.0, username, made.1)
    decreases |tries|
  {
    hide Invariant, HasAdministration, Run, SeedOnce, MustWait, CanSeed, CanTry;
    var found, a := Run(s, tries[0].arrivals), tries[0].attempt;
    var t := SeedOnce(found, username, a);
    TryKeepsInvariant(s, last, username, tries, found, t);
    if MustWait(found, username, a) && |tries| > 1 {
      LoopWorksExactlyWhen(t.state, a.index + 1, username, tries[1..]);
    } else {
      InvariantIsMonotone(t.state, a.index + 1, IndexAfterTries(tries, last));
    }
  }

  // ----- the retry loop on a store nothing else writes to -----

  predicate NothingArrives(tries: seq<Try>) {
    forall i :: 0 <= i < |tries| ==> tries[i].arrivals == []
  }

  /** Some attempt up to this one leads when the group is due. */
  predicate GroupIsWritten(tries: seq<Try>, upTo: nat) {
    exists j :: 0 <= j <= upTo && j < |tries| && tries[j].attempt.leadsForGroup
  }

  /** Some attempt leads when the user is due, with the group there by then. */
  predicate UserIsWritten(groupThere: bool, tries: seq<Try>) {
    exists i :: 0 <= i < |tries| && tries[i].attempt.leadsForUser && (groupThere || GroupIsWritten(tries, i))
  }

  lemma GroupNowOrLater(tries: seq<Try>, upTo: nat)
    requires tries != []
    ensures GroupIsWritten(tries, upTo)
       <==> tries[0].attempt.leadsForGroup || (upTo > 0 && GroupIsWritten(tries[1..], upTo - 1))
  {
    var a, rest := tries[0].attempt, tries[1..];
    if a.leadsForGroup {
      assert GroupIsWritten(tries, upTo);
    }
    if upTo > 0 && GroupIsWritten(rest, upTo - 1) {
      var j :| 0 <= j <= upTo - 1 && j < |rest| && rest[j].attempt.leadsForGroup;
      assert tries[j + 1].attempt.leadsForGroup;
    }
    if GroupIsWritten(tries, upTo) && !a.leadsForGroup {
      var j :| 0 <= j <= upTo && j < |tries| && tries[j].attempt.leadsForGroup;
      assert rest[j - 1].attempt.leadsForGroup;
    }
  }

  lemma UserNowOrLater(groupThere: bool, tries: seq<Try>)
    requires tries != []
    ensures var a, rest := tries[0].attempt, tries[1..];
      UserIsWritten(groupThere, tries)
      <==> (a.leadsForUser && (groupThere || a.leadsForGroup)) || UserIsWritten(groupThere || a.leadsForGroup, rest)
  {
    hide GroupIsWritten;
    var a, rest := tries[0].attempt, tries[1..];
    GroupNowOrLater(tries, 0);
    if UserIsWritten(groupThere, tries) {
      var i :| 0 <= i < |tries| && tries[i].attempt.leadsForUser && (groupThere || GroupIsWritten(tries, i));
      GroupNowOrLater(tries, i);
      if i > 0 {
        assert rest[i - 1].attempt.leadsForUser;
      }
    }
    if a.leadsForUser && (groupThere || a.leadsForGroup) {
      assert tries[0].attempt.leadsForUser;
    }
    if UserIsWritten(groupThere || a.leadsForGroup, rest) {
      var i :| 0 <= i < |rest| && rest[i].attempt.leadsForUser && (groupThere || a.leadsForGroup || GroupIsWritten(rest, i));
      GroupNowOrLater(tries, i + 1);
      assert tries[i + 1].attempt.leadsForUser;
    }
  }

  /** When the loop can seed a store, from what the store holds and when the node
      leads. */
  ghost predicate LoopCanSeed(s: State, username: string, tries: seq<Try>) {
    && (if ADMIN_GROUP_ID in s.groups then s.groups[ADMIN_GROUP_ID].system
        else GroupIsWritten(tries, |tries|))
    && (HasActiveAdmin(s.users) || (!UsernameKnown(s, username) && UserIsWritten(ADMIN_GROUP_ID in s.groups, tries)))
  }

  lemma QuietTry(s: State, last: nat, username: string, tries: seq<Try>, t: State)
    requires Invariant(s, last) && tries != [] && last < tries[0].attempt.index && tries[0].attempt.newId !in s.users
    requires t == SeedOnce(s, username, tries[0].attempt).state
    ensures var a := tries[0].attempt;
      if MustWait(s, username, a) then LoopCanSeed(t, username, tries[1..]) <==> LoopCanSeed(s, username, tries)
      else CanSeed(s, username, a) <==> LoopCanSeed(s, username, tries)
  {
    hide Invariant, SeedOnce, GroupIsWritten, UserIsWritten, HasActiveAdmin;
    SeedingWorksExactlyWhen(s, last, username, tries[0].attempt);
    GroupNowOrLater(tries, |tries|);
    UserNowOrLater(ADMIN_GROUP_ID in s.groups, tries);
  }

  lemma NoTries(s: State, username: string)
    ensures HasAdministration(s) <==> LoopCanSeed(s, username, [])
  {
  }

  lemma QuietTryFindsTheStore(s: State, last: nat, username: string, tries: seq<Try>)
    requires tries != [] && CanTry(s, last, username, tries) && NothingArrives(tries)
    ensures Run(s, tries[0].arrivals) == s && NothingArrives(tries[1..])
    ensures last < tries[0].attempt.index && tries[0].attempt.newId !in s.users
  {
    hide SeedOnce;
  }

  /** On a store that nothing else writes to the loop leaves administration
      behind exactly when the Admin ID holds a System group, there already or
      written by an attempt that led, and either some active member is there or
      the username is free and an attempt led for the user, once the group was
      there. */
  lemma {:induction false} QuietLoopWorksExactlyWhen(s: State, last: nat, username: string, tries: seq<Try>)
    requires Invariant(s, last) && CanTry(s, last, username, tries) && NothingArrives(tries)
    ensures HasAdministration(SeedAll(s, username, tries).state) <==> LoopCanSeed(s, username, tries)
    decreases |tries|
  {
    hide Invariant, HasAdministration, Run, SeedOnce, MustWait, CanSeed, CanTry, LoopCanSeed;
    if tries == [] {
      NoTries(s, username);
    } else {
      var a := tries[0].attempt;
      var t := SeedOnce(s, username, a);
      QuietTryFindsTheStore(s, last, username, tries);
      TryKeepsInvariant(s, last, username, tries, s, t);
      QuietTry(s, last, username, tries, t.state);
      if MustWait(s, username, a) {
        QuietLoopWorksExactlyWhen(t.state, a.index + 1, username, tries[1..]);
      }
    }
  }

  /** An empty store is seeded exactly when an attempt led for the user and it or
      an earlier one led for the group. */
  lemma EmptyStoreIsSeededExactlyWhen(username: string, tries: seq<Try>)
    requires CanTry(EMPTY_STATE, 0, username, tries) && NothingArrives(tries)
    ensures HasAdministration(SeedAll(EMPTY_STATE, username, tries).state) <==> UserIsWritten(false, tries)
  {
    hide SeedAll, CanTry, HasAdministration;
    QuietLoopWorksExactlyWhen(EMPTY_STATE, 0, username, tries);
    if i :| 0 <= i < |tries| && tries[i].attempt.leadsForUser && GroupIsWritten(tries, i) {
      assert GroupIsWritten(tries, |tries|);
    }
  }

  /** Giving up looks like success: a node that never leads for the group leaves
      a store without one as it was, without an administrator, and reports no
      error. */
  lemma {:induction false} GivingUpLooksLikeSuccess(s: State, username: string, tries: seq<Try>)
    requires ADMIN_GROUP_ID !in s.groups && NothingArrives(tries) && !GroupIsWritten(tries, |tries|)
    ensures SeedAll(s, username, tries) == Outcome(s, Done) && !HasAdministration(s)
    decreases |tries|
  {
    if tries != [] {
      GroupNowOrLater(tries, |tries|);
      assert SeedOnce(s, username, tries[0].attempt) == Fail(s, ErrNotLeader);
      GivingUpLooksLikeSuccess(s, username, tries[1..]);
    }
  }

  // ----- administration is never lost -----

  /** Another command, or one more attempt at seeding: a re-seeding is any
      number of attempts with commands between them. */
  datatype Action = Commit(entry: Entry) | Reseed(username: string, attempt: Attempt)

  ghost function Act(s: State, action: Action): State {
    match action
    case Commit(e) => Step(s, e).state
    case Reseed(username, a) => SeedOnce(s, username, a).state
  }

  function IndexAfter(action: Action): nat {
    match action
    case Commit(e) => e.index
    case Reseed(_, a) => a.index + 1
  }

  ghost predicate CanFollow(action: Action, last: nat) {
    match action
    case Commit(e) => last < e.index && Admissible(e.command)
    case Reseed(_, a) => last < a.index
  }

  ghost function Play(s: State, actions: seq<Action>): State
    decreases |actions|
  {
    if actions == [] then s else Play(Act(s, actions[0]), actions[1..])
  }

  ghost predicate InOrder(actions: seq<Action>, last: nat)
    decreases |actions|
  {
    actions != [] ==> CanFollow(actions[0], last) && InOrder(actions[1..], IndexAfter(actions[0]))
  }

  lemma ActionKeepsAdministration(s: State, last: nat, action: Action)
    requires Invariant(s, last) && HasAdministration(s) && CanFollow(action, last)
    ensures Invariant(Act(s, action), IndexAfter(action)) && HasAdministration(Act(s, action))
  {
    match action
    case Commit(e) => StepIsTransition(s, last, e);
    case Reseed(username, a) => SeedingKeepsAdministration(s, last, username, a);
  }

  lemma {:induction false} ActionsKeepAdministration(s: State, last: nat, actions: seq<Action>)
    requires Invariant(s, last) && HasAdministration(s) && InOrder(actions, last)
    ensures exists later :: Invariant(Play(s, actions), later)
    ensures HasAdministration(Play(s, actions))
    decreases |actions|
  {
    if actions == [] {
      assert Invariant(Play(s, actions), last);
    } else {
      ActionKeepsAdministration(s, last, actions[0]);
      var next := Act(s, actions[0]);
      ActionsKeepAdministration(next, IndexAfter(actions[0]), actions[1..]);
      var later :| Invariant(Play(next, actions[1..]), later);
      assert Invariant(Play(s, actions), later);
    }
  }

  /** From a store that the retry loop seeded, over however many attempts and
      whatever arrived between them, after any commands and any re-seedings some
      active user still resolves to admin. */
  lemma AdministrationIsNeverLost(username: string, tries: seq<Try>, actions: seq<Action>)
    requires tries != [] && CanTry(EMPTY_STATE, 0, username, tries)
    requires var made := LastMade(EMPTY_STATE, username, tries); CanSeed(made.0, username, made.1)
    requires InOrder(actions, IndexAfterTries(tries, 0))
    ensures exists id :: ResolvesToAdmin(Play(SeedAll(EMPTY_STATE, username, tries).state, actions), id)
  {
    hide SeedAll, CanTry, LastMade, CanSeed, Play, HasAdministration, InOrder;
    LoopWorksExactlyWhen(EMPTY_STATE, 0, username, tries);
    SeededStaysSeeded(SeedAll(EMPTY_STATE, username, tries).state, IndexAfterTries(tries, 0), actions);
  }

  lemma SeededStaysSeeded(s: State, last: nat, actions: seq<Action>)
    requires Invariant(s, last) && HasAdministration(s) && InOrder(actions, last)
    ensures exists id :: ResolvesToAdmin(Play(s, actions), id)
  {
    hide Invariant, HasAdministration, InOrder, Play;
    ActionsKeepAdministration(s, last, actions);
    var later :| Invariant(Play(s, actions), later);
    AdministrationMeansAnAdmin(Play(s, actions), later);
  }

  /** On an empty store that nothing else writes to: once an attempt led for the
      user and it or an earlier one for the group, administration is there for
      good. */
  lemma SeededOnceIsSeededForGood(username: string, tries: seq<Try>, actions: seq<Action>)
    requires CanTry(EMPTY_STATE, 0, username, tries) && NothingArrives(tries) && UserIsWritten(false, tries)
    requires InOrder(actions, IndexAfterTries(tries, 0))
    ensures exists id :: ResolvesToAdmin(Play(SeedAll(EMPTY_STATE, username, tries).state, actions), id)
  {
    hide SeedAll, CanTry, LastMade, CanSeed, Play, HasAdministration, InOrder;
    EmptyStoreIsSeededExactlyWhen(username, tries);
    LoopWorksExactlyWhen(EMPTY_STATE, 0, username, tries);
    SeededStaysSeeded(SeedAll(EMPTY_STATE, username, tries).state, IndexAfterTries(tries, 0), actions);
  }
}
