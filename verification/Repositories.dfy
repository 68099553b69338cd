/** The repositories' pre-checks, and clients that act on what they read
    earlier (UserRepository, GroupRepository and EnvironmentRepository). */
module Repositories {
  import opened Records
  import opened Machine
  import opened Invariants
  import opened Replica

  // ----- pre-checks on an unchanged state -----

  function UserSetCheck(s: State, user: User, hit: Option<User>): Option<Error> {
    if hit.Some? && hit.value.id != user.id then Some(ErrUsernameTaken)
    else if IsSoleActiveAdmin(s, user.id) && !IsActiveAdmin(user) then Some(ErrLastAdmin)
    else None
  }

  function ErrorOf(r: Response): Option<Error> {
    if r.Failed? then Some(r.error) else None
  }

  /** The username pre-check looks at whichever user a scan finds first and asks
      whether it is another one; Apply asks whether any other user has the name.
      In a reachable state, for any scan order, they give the same answer. */
  lemma UserSetCheckAgrees(s: State, last: nat, index: nat, user: User, hit: Option<User>)
    requires Invariant(s, last) && IsHit(s, user.username, hit)
    ensures UserSetCheck(s, user, hit) == ErrorOf(ApplyUser(s, index, Set(user)).response)
  {
  }

  /** Without unique usernames the two would differ: a scan may find the user
      itself first and miss another one with the same name. */
  lemma UserSetCheckNeedsUniqueNames(user: User, twin: User)
    requires user.username == twin.username && user.id != twin.id
    ensures var s := EMPTY_STATE.(users := map[user.id := user, twin.id := twin]);
      && IsHit(s, user.username, Some(user))
      && ErrorOf(ApplyUser(s, 1, Set(user)).response) == Some(ErrUsernameTaken)
      && UserSetCheck(s, user, Some(user)) != Some(ErrUsernameTaken)
  {
    var s := EMPTY_STATE.(users := map[user.id := user, twin.id := twin]);
    assert user.id in s.users && s.users[user.id] == user;
    assert twin.id in s.users && twin.id != user.id && s.users[twin.id].username == user.username;
    assert UsernameTaken(s, user.username, user.id);
  }

  // ----- the repositories -----

  /** What a repository call amounts to on a state that does not change under
      it: the command itself when leading, and otherwise no change and the error
      Apply would give, or "not the leader" when Apply would succeed. */
  ghost function Asked(s: State, e: Entry, leads: bool): Outcome {
    var o := Step(s, e);
    if leads then o
    else Fail(s, if o.response.Failed? then o.response.error else ErrNotLeader)
  }

  lemma AskingIsApplying(s: State, e: Entry)
    ensures Asked(s, e, true) == Step(s, e)
    ensures Asked(s, e, false).state == s
    ensures Asked(s, e, false).response == if Step(s, e).response.Failed? then Step(s, e).response else Failed(ErrNotLeader)
  {
    hide Step;
  }

  method SetUser(fsm: Fsm, leads: bool, index: nat, user: User, ghost last: nat) returns (r: Response)
    requires Invariant(fsm.Abs(), last)
    modifies fsm
    ensures Outcome(fsm.Abs(), r) == Asked(old(fsm.Abs()), Entry(index, UserCommand(Set(user))), leads)
  {
    var hit := fsm.GetUserByUsername(user.username);
    UserSetCheckAgrees(fsm.Abs(), last, index, user, hit);
    if hit.Some? && hit.value.id != user.id {
      return Failed(ErrUsernameTaken);
    }
    var sole := fsm.IsSoleAdmin(user.id);
    if sole && !IsActiveAdmin(user) {
      return Failed(ErrLastAdmin);
    }
    if !leads {
      return Failed(ErrNotLeader);
    }
    r := fsm.Apply(Entry(index, UserCommand(Set(user))));
  }

  method DeleteUser(fsm: Fsm, leads: bool, index: nat, id: string) returns (r: Response)
    modifies fsm
    ensures Outcome(fsm.Abs(), r) == Asked(old(fsm.Abs()), Entry(index, UserCommand(Delete(id))), leads)
  {
    var sole := fsm.IsSoleAdmin(id);
    if sole {
      return Failed(ErrLastAdmin);
    }
    if !leads {
      return Failed(ErrNotLeader);
    }
    r := fsm.Apply(Entry(index, UserCommand(Delete(id))));
  }

  method SetGroup(fsm: Fsm, leads: bool, index: nat, group: Group) returns (r: Response)
    modifies fsm
    ensures Outcome(fsm.Abs(), r) == Asked(old(fsm.Abs()), Entry(index, GroupCommand(Set(group))), leads)
  {
    if group.id in fsm.groups && fsm.groups[group.id].system {
      return Failed(ErrProtectedSystemGroup);
    }
    if !leads {
      return Failed(ErrNotLeader);
    }
    r := fsm.Apply(Entry(index, GroupCommand(Set(group))));
  }

  method DeleteGroup(fsm: Fsm, leads: bool, index: nat, id: string) returns (r: Response)
    modifies fsm
    ensures Outcome(fsm.Abs(), r) == Asked(old(fsm.Abs()), Entry(index, GroupCommand(Delete(id))), leads)
  {
    if id in fsm.groups && fsm.groups[id].system {
      return Failed(ErrProtectedSystemGroup);
    }
    if !leads {
      return Failed(ErrNotLeader);
    }
    r := fsm.Apply(Entry(index, GroupCommand(Delete(id))));
  }

  method DeleteEnvironment(fsm: Fsm, leads: bool, index: nat, id: string) returns (r: Response)
    modifies fsm
    ensures Outcome(fsm.Abs(), r) == Asked(old(fsm.Abs()), Entry(index, EnvironmentCommand(Delete(id))), leads)
  {
    if id in fsm.environments && |fsm.environments| <= 1 {
      return Failed(ErrLastEnvironment);
    }
    var hasFlags := AnyValue(fsm.flags, (k, f: Flag) => f.environmentId == id);
    if hasFlags {
      return Failed(ErrEnvironmentHasFlags);
    }
    var hasCredentials := AnyValue(fsm.credentials, (k, c: Credential) => c.environmentId == id);
    if hasCredentials {
      return Failed(ErrEnvironmentHasCredentials);
    }
    var hasSegments := AnyValue(fsm.segments, (k, g: Segment) => g.environmentId == id);
    if hasSegments {
      return Failed(ErrEnvironmentHasSegments);
    }
    if !leads {
      return Failed(ErrNotLeader);
    }
    r := fsm.Apply(Entry(index, EnvironmentCommand(Delete(id))));
  }

  // ----- clients that act on stale reads -----

  /** A client reads the store and settles on a command or on nothing; whatever
      it settled on is committed later, `gap` indexes further on. */
  datatype Event<R> = Read(client: nat, request: R) | Write(client: nat, gap: nat)

  datatype World = World(state: State, last: nat, pending: map<nat, Command>)

  function Happen<R>(w: World, event: Event<R>, decide: (State, R) -> Option<Command>): World {
    match event
    case Read(client, request) =>
      (match decide(w.state, request)
       case None => w
       case Some(c) => w.(pending := w.pending[client := c]))
    case Write(client, gap) =>
      if client in w.pending then
        var index := w.last + 1 + gap;
        World(Step(w.state, Entry(index, w.pending[client])).state, index, w.pending - {client})
      else w
  }

  function Unfold<R>(w: World, schedule: seq<Event<R>>, decide: (State, R) -> Option<Command>): World {
    if schedule == [] then w
    else Happen(Unfold(w, schedule[..|schedule| - 1], decide), schedule[|schedule| - 1], decide)
  }

  lemma OneMoreEvent<R>(w: World, schedule: seq<Event<R>>, event: Event<R>, decide: (State, R) -> Option<Command>)
    ensures Unfold(w, [], decide) == w
    ensures Unfold(w, schedule + [event], decide) == Happen(Unfold(w, schedule, decide), event, decide)
  {
    hide Step, Happen;
    assert (schedule + [event])[..|schedule|] == schedule;
  }

  /** A read that settles on a command leaves it pending; writing it applies it
      and it is pending no more. */
  lemma ReadThenWrite<R>(w: World, client: nat, request: R, gap: nat, decide: (State, R) -> Option<Command>)
    ensures var read := Happen(w, Read(client, request), decide);
      && read.state == w.state && read.last == w.last
      && (decide(w.state, request).Some? ==> client in read.pending && read.pending[client] == decide(w.state, request).value)
    ensures client in w.pending ==>
      var wrote := Happen(w, Write(client, gap), decide);
      && wrote.last == w.last + 1 + gap && client !in wrote.pending
      && wrote.state == Step(w.state, Entry(wrote.last, w.pending[client])).state
  {
    hide Step;
  }

  ghost predicate DecidesAdmissibly<R(!new)>(decide: (State, R) -> Option<Command>) {
    forall s, r :: decide(s, r).Some? ==> Admissible(decide(s, r).value)
  }

  ghost predicate PendingAdmissible(w: World) {
    forall c :: c in w.pending ==> Admissible(w.pending[c])
  }

  lemma HappeningIsHarmless<R(!new)>(s: State, last: nat, w: World, event: Event<R>, decide: (State, R) -> Option<Command>)
    requires DecidesAdmissibly(decide) && PendingAdmissible(w) && Progress(s, last, w.state, w.last)
    ensures PendingAdmissible(Happen(w, event, decide))
    ensures Progress(s, last, Happen(w, event, decide).state, Happen(w, event, decide).last)
  {
    hide Invariant, HasAdministration, Step, Transition;
    if event.Write? && event.client in w.pending {
      var e := Entry(w.last + 1 + event.gap, w.pending[event.client]);
      StepIsTransition(w.state, w.last, e);
      ProgressGoesOn(s, last, w.state, w.last, Step(w.state, e).state, e.index);
    }
  }

  /** Whatever clients decide on whatever stale state, and however their reads
      and writes interleave, what they do to the store is a run of some log: so
      the joint invariant holds, and whatever holds over every run. */
  lemma {:induction false} StaleClientsAreHarmless<R(!new)>(
      s: State, last: nat, schedule: seq<Event<R>>, decide: (State, R) -> Option<Command>, w: World) returns (log: seq<Entry>)
    requires Invariant(s, last) && DecidesAdmissibly(decide)
    requires w == Unfold(World(s, last, map[]), schedule, decide)
    ensures PendingAdmissible(w) && Progress(s, last, w.state, w.last)
    ensures IsLog(log, last) && w.state == Run(s, log) && w.last == LastIndex(log, last)
  {
    hide Invariant, Progress, Step, Happen, DecidesAdmissibly;
    log := [];
    if schedule == [] {
      assert Progress(s, last, w.state, w.last) by { NothingHappened(s, last); }
    } else {
      var n := |schedule| - 1;
      var v := Unfold(World(s, last, map[]), schedule[..n], decide);
      log := StaleClientsAreHarmless(s, last, schedule[..n], decide, v);
      HappeningIsHarmless(s, last, v, schedule[n], decide);
      log := HappeningGoesOn(s, last, log, v, schedule[n], decide);
    }
  }

  lemma NothingHappened(s: State, last: nat)
    requires Invariant(s, last)
    ensures Progress(s, last, s, last)
  {
  }

  lemma HappeningGoesOn<R(!new)>(
      s: State, last: nat, log: seq<Entry>, v: World, event: Event<R>, decide: (State, R) -> Option<Command>) returns (longer: seq<Entry>)
    requires IsLog(log, last) && v.state == Run(s, log) && v.last == LastIndex(log, last) && PendingAdmissible(v)
    ensures var w := Happen(v, event, decide);
      IsLog(longer, last) && w.state == Run(s, longer) && w.last == LastIndex(longer, last)
  {
    hide Step;
    longer := log;
    if event.Write? && event.client in v.pending {
      longer := log + [Entry(v.last + 1 + event.gap, v.pending[event.client])];
      assert longer[..|longer| - 1] == log;
    }
  }
}
