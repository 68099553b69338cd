/** The application-credential handlers, each a read and a later write, in any
    interleaving (backend/internal/api/application_credentials.go). */
module CredentialPinning {
  import opened Records
  import opened Machine
  import opened Commands
  import opened Invariants
  import opened Replica
  import opened Permissions
  import opened Repositories

  /** Requests with trimmed names and environment IDs, as the caller's resolved
      access and a fresh ID or secret hash come with them. `Other` is any command
      that stores no credential. */
  datatype Request =
    | Post(newId: string, name: string, hash: Slice<Byte>, environmentId: string, scopes: Slice<string>, access: Access)
    | Put(id: string, newName: string, newScopes: Option<Slice<string>>, active: Option<bool>, access: Access)
    | Rotate(id: string, hash: Slice<Byte>, access: Access)
    | Remove(id: string, access: Access)
    | Other(command: Command)

  predicate HasEnvironment(access: Access, environmentId: string) {
    access.AllAccess? || environmentId in access.environments
  }

  predicate KnownScopes(scopes: Slice<string>) {
    forall i :: 0 <= i < |scopes.Elems()| ==> scopes.Elems()[i] in CREDENTIAL_SCOPES
  }

  predicate StoresCredential(c: Command) {
    c.CredentialCommand? && c.credentialOp.Set?
  }

  /** What a handler settles on after reading; None is a rejection. */
  function Decide(s: State, r: Request): Option<Command> {
    match r
    case Post(newId, name, hash, environmentId, scopes, access) =>
      if environmentId == "" || !HasEnvironment(access, environmentId) || name == ""
         || environmentId !in s.environments || !KnownScopes(scopes) then None
      else Some(CredentialCommand(Set(Credential(newId, name, hash, environmentId, scopes, true, 0))))
    case Put(id, newName, newScopes, active, access) =>
      if id !in s.credentials then None
      else
        var existing := s.credentials[id];
        if !HasEnvironment(access, existing.environmentId) || newName == "" then None
        else if newScopes.Some? && !KnownScopes(newScopes.value) then None
        else Some(CredentialCommand(Set(Credential(
               existing.id, newName, existing.clientSecretHash, existing.environmentId,
               if newScopes.Some? then newScopes.value else existing.scopes,
               if active.Some? then active.value else existing.active, 0))))
    case Rotate(id, hash, access) =>
      if id !in s.credentials || !HasEnvironment(access, s.credentials[id].environmentId) then None
      else Some(CredentialCommand(Set(s.credentials[id].(clientSecretHash := hash, version := 0))))
    case Remove(id, access) =>
      if id !in s.credentials || !HasEnvironment(access, s.credentials[id].environmentId) then None
      else Some(CredentialCommand(Delete(id)))
    case Other(c) =>
      if StoresCredential(c) || !Admissible(c) then None else Some(c)
  }

  /** applicationCredentialsPutHandler up to its write: read, then override the
      fields the payload carries. */
  method PutHandler(fsm: Fsm, r: Request) returns (c: Option<Command>)
    requires r.Put?
    ensures c == Decide(fsm.Abs(), r)
  {
    if r.id !in fsm.credentials {
      return None;
    }
    var existing := fsm.credentials[r.id];
    if !HasEnvironment(r.access, existing.environmentId) || r.newName == "" {
      return None;
    }
    var scopes := existing.scopes;
    if r.newScopes.Some? {
      if !KnownScopes(r.newScopes.value) {
        return None;
      }
      scopes := r.newScopes.value;
    }
    var active := existing.active;
    if r.active.Some? {
      active := r.active.value;
    }
    return Some(CredentialCommand(Set(Credential(
      existing.id, r.newName, existing.clientSecretHash, existing.environmentId, scopes, active, 0))));
  }

  /** A request handled with nothing between its read and its write. */
  function Served(w: World, client: nat, r: Request): World {
    Happen(Happen(w, Read(client, r), Decide), Write(client, 0), Decide)
  }

  lemma ServedIsItsCommand(w: World, client: nat, r: Request)
    requires client !in w.pending
    ensures Served(w, client, r).state ==
      if Decide(w.state, r).Some? then Step(w.state, Entry(w.last + 1, Decide(w.state, r).value)).state else w.state
  {
    hide Step, Decide;
  }

  predicate InCatalog(scopes: Slice<string>) {
    forall i :: 0 <= i < |scopes.Elems()| ==>
      scopes.Elems()[i] in ["flags:read", "flags:write", "flags:update", "flags:delete"]
  }

  predicate MayUse(access: Access, environmentId: string) {
    access.AllAccess? || environmentId in access.environments
  }

  /** A creation stores the given secret, environment and scopes under the new ID,
      active; or it is refused and stores nothing. */
  lemma PostStores(w: World, client: nat, r: Request)
    requires r.Post? && client !in w.pending
    ensures var t := Served(w, client, r).state;
      if r.environmentId == "" || !MayUse(r.access, r.environmentId) || r.name == "" || r.environmentId !in w.state.environments
         || !InCatalog(r.scopes) then t == w.state
      else Puts(w.state.credentials, t.credentials, r.newId,
                Credential(r.newId, r.name, r.hash, r.environmentId, r.scopes, true, w.last + 1))
  {
    hide Step;
    ServedIsItsCommand(w, client, r);
    SetCredentialStores(w.state, w.last + 1, Credential(r.newId, r.name, r.hash, r.environmentId, r.scopes, true, 0));
  }

  /** An update changes the name, and scopes and activity where they are given; it
      never changes the secret or the environment. */
  lemma PutStores(w: World, client: nat, r: Request)
    requires r.Put? && client !in w.pending && CredentialsOk(w.state.credentials, w.state.environments.Keys, w.last)
    ensures var t := Served(w, client, r).state;
      if r.id !in w.state.credentials || !MayUse(r.access, w.state.credentials[r.id].environmentId) || r.newName == ""
         || (r.newScopes.Some? && !InCatalog(r.newScopes.value)) then t == w.state
      else
        var before := w.state.credentials[r.id];
        Puts(w.state.credentials, t.credentials, r.id, before.(
               name := r.newName, version := w.last + 1,
               scopes := if r.newScopes.Some? then r.newScopes.value else before.scopes,
               active := if r.active.Some? then r.active.value else before.active))
  {
    hide Step;
    ServedIsItsCommand(w, client, r);
    if Decide(w.state, r).Some? {
      SetCredentialStores(w.state, w.last + 1, Decide(w.state, r).value.credentialOp.value);
    }
  }

  /** A rotation stores the new secret and keeps everything else. */
  lemma RotateStores(w: World, client: nat, r: Request)
    requires r.Rotate? && client !in w.pending && CredentialsOk(w.state.credentials, w.state.environments.Keys, w.last)
    ensures var t := Served(w, client, r).state;
      if r.id !in w.state.credentials || !MayUse(r.access, w.state.credentials[r.id].environmentId) then t == w.state
      else Puts(w.state.credentials, t.credentials, r.id,
                w.state.credentials[r.id].(clientSecretHash := r.hash, version := w.last + 1))
  {
    hide Step;
    ServedIsItsCommand(w, client, r);
    if Decide(w.state, r).Some? {
      SetCredentialStores(w.state, w.last + 1, Decide(w.state, r).value.credentialOp.value);
    }
  }

  lemma RemoveDrops(w: World, client: nat, r: Request)
    requires r.Remove? && client !in w.pending
    ensures var t := Served(w, client, r).state;
      if r.id !in w.state.credentials || !MayUse(r.access, w.state.credentials[r.id].environmentId) then t == w.state
      else Drops(w.state.credentials, t.credentials, r.id)
  {
    hide Step;
    ServedIsItsCommand(w, client, r);
    DeleteCredentialDrops(w.state, w.last + 1, r.id);
  }

  /** NewID is fresh: no two creations get one ID. */
  ghost predicate FreshIds(schedule: seq<Event<Request>>) {
    forall i, j :: 0 <= i < j < |schedule| && IsPost(schedule[i]) && IsPost(schedule[j]) ==>
      schedule[i].request.newId != schedule[j].request.newId
  }

  predicate IsPost(event: Event<Request>) {
    event.Read? && event.request.Post?
  }

  /** Some creation in the schedule gave the credential its ID and environment. */
  ghost predicate Born(schedule: seq<Event<Request>>, c: Credential) {
    exists i :: 0 <= i < |schedule| && IsPost(schedule[i])
      && schedule[i].request.newId == c.id && schedule[i].request.environmentId == c.environmentId
  }

  ghost predicate Sound(schedule: seq<Event<Request>>, c: Credential) {
    Born(schedule, c) && KnownScopes(c.scopes)
  }

  ghost predicate AllSound(schedule: seq<Event<Request>>, w: World) {
    && (forall id :: id in w.state.credentials ==> w.state.credentials[id].id == id && Sound(schedule, w.state.credentials[id]))
    && (forall k :: k in w.pending && StoresCredential(w.pending[k]) ==> Sound(schedule, w.pending[k].credentialOp.value))
  }

  function After(schedule: seq<Event<Request>>): World {
    Unfold(World(EMPTY_STATE, 0, map[]), schedule, Decide)
  }

  /** A handler only ever settles on storing a credential that is sound. */
  lemma DecisionsAreSound(schedule: seq<Event<Request>>, s: State, r: Request)
    requires forall id :: id in s.credentials ==> Sound(schedule, s.credentials[id])
    requires r.Post? ==> exists i :: 0 <= i < |schedule| && schedule[i].Read? && schedule[i].request == r
    ensures Decide(s, r).Some? && StoresCredential(Decide(s, r).value) ==> Sound(schedule, Decide(s, r).value.credentialOp.value)
  {
  }

  lemma CredentialStepIsSound(schedule: seq<Event<Request>>, s: State, index: nat, op: Op<Credential>, id: string)
    requires forall k :: k in s.credentials ==> s.credentials[k].id == k && Sound(schedule, s.credentials[k])
    requires op.Set? ==> Sound(schedule, op.value)
    requires id in ApplyCredential(s, index, op).state.credentials
    ensures var c := ApplyCredential(s, index, op).state.credentials[id]; c.id == id && Sound(schedule, c)
  {
  }

  lemma StepIsSound(schedule: seq<Event<Request>>, s: State, e: Entry)
    requires forall id :: id in s.credentials ==> s.credentials[id].id == id && Sound(schedule, s.credentials[id])
    requires StoresCredential(e.command) ==> Sound(schedule, e.command.credentialOp.value)
    ensures var t := Step(s, e).state;
      forall id :: id in t.credentials ==> t.credentials[id].id == id && Sound(schedule, t.credentials[id])
  {
    match e.command
    case CredentialCommand(op) =>
      assert Step(s, e) == ApplyCredential(s, e.index, op);
      forall id | id in ApplyCredential(s, e.index, op).state.credentials
        ensures var c := ApplyCredential(s, e.index, op).state.credentials[id]; c.id == id && Sound(schedule, c)
      {
        CredentialStepIsSound(schedule, s, e.index, op, id);
      }
    case _ => OthersStay(s, e);
  }

  lemma EventKeepsSoundness(schedule: seq<Event<Request>>, w: World, event: Event<Request>)
    requires AllSound(schedule, w)
    requires IsPost(event) ==> event in schedule
    ensures AllSound(schedule, Happen(w, event, Decide))
  {
    hide Step;
    match event
    case Read(client, request) =>
      if request.Post? {
        var i :| 0 <= i < |schedule| && schedule[i] == event;
      }
      DecisionsAreSound(schedule, w.state, request);
    case Write(client, gap) =>
      if client in w.pending {
        StepIsSound(schedule, w.state, Entry(w.last + 1 + gap, w.pending[client]));
      }
  }

  lemma {:induction false} SchedulesAreSound(schedule: seq<Event<Request>>, cut: nat)
    requires cut <= |schedule|
    ensures AllSound(schedule, After(schedule[..cut]))
    decreases cut
  {
    if cut > 0 {
      SchedulesAreSound(schedule, cut - 1);
      assert schedule[..cut][..cut - 1] == schedule[..cut - 1];
      EventKeepsSoundness(schedule, After(schedule[..cut - 1]), schedule[cut - 1]);
    }
  }

  /** Over every interleaving, all records ever stored under one ID carry the
      same environment, and only scopes of the credential catalog. */
  lemma CredentialNeverChangesEnvironment(schedule: seq<Event<Request>>, i: nat, j: nat, id: string)
    requires FreshIds(schedule) && i <= |schedule| && j <= |schedule|
    requires id in After(schedule[..i]).state.credentials && id in After(schedule[..j]).state.credentials
    ensures After(schedule[..i]).state.credentials[id].environmentId == After(schedule[..j]).state.credentials[id].environmentId
    ensures KnownScopes(After(schedule[..i]).state.credentials[id].scopes)
  {
    SchedulesAreSound(schedule, i);
    SchedulesAreSound(schedule, j);
    var a := After(schedule[..i]).state.credentials[id];
    var b := After(schedule[..j]).state.credentials[id];
    SameBirth(schedule, a, b);
  }

  lemma SameBirth(schedule: seq<Event<Request>>, a: Credential, b: Credential)
    requires FreshIds(schedule) && Born(schedule, a) && Born(schedule, b) && a.id == b.id
    ensures a.environmentId == b.environmentId
  {
  }
}
