/** The environment handlers, run one after another: the list is in creation
    order (backend/internal/api/environments.go). */
module EnvironmentOrder {
  import opened Records
  import opened Machine
  import opened Commands
  import opened Invariants
  import opened Listing
  import opened Replica

  /** What the payload says of the colour, already normalised. */
  datatype Color = Unchanged | Changed(color: string) | BadColor

  /** Requests with trimmed names. `Other` is any command about anything else. */
  datatype Request =
    | Create(newId: string, name: string, color: Color)
    | Update(id: string, newName: string, newColor: Color)
    | Delete(target: string)
    | Other(command: Command)

  // ----- one past the highest order in use -----

  ghost predicate IsNextOrder(environments: map<string, Environment>, next: int) {
    && next >= 0
    && (forall k :: k in environments ==> environments[k].order < next)
    && (next == 0 || exists k :: k in environments && environments[k].order + 1 == next)
  }

  ghost function NextOrder(environments: map<string, Environment>): (next: int)
    ensures IsNextOrder(environments, next)
    decreases |environments|
  {
    if environments == map[] then 0
    else
      var k :| k in environments;
      var rest := environments - {k};
      assert |rest| < |environments| by {
        assert rest.Keys == environments.Keys - {k};
        assert |rest.Keys| == |rest| && |environments.Keys| == |environments|;
      }
      var next := NextOrder(rest);
      assert forall j :: j in environments && j != k ==> j in rest;
      if environments[k].order >= next then environments[k].order + 1 else next
  }

  /** nextEnvironmentOrder */
  method NextEnvironmentOrder(fsm: Fsm, ghost last: nat) returns (next: int)
    requires Invariant(fsm.Abs(), last)
    ensures next == NextOrder(fsm.Abs().environments)
  {
    next := 0;
    var list := fsm.ListEnvironments(last);
    for i := 0 to |list|
      invariant next >= 0
      invariant forall j :: 0 <= j < i ==> list[j].order < next
      invariant next == 0 || exists j :: 0 <= j < i && list[j].order + 1 == next
    {
      if list[i].order >= next {
        next := list[i].order + 1;
      }
    }
    ghost var m := fsm.environments;
    forall k | k in m ensures m[k].order < next {
      assert m[k] in list;
    }
    if next != 0 {
      var j :| 0 <= j < |list| && list[j].order + 1 == next;
      assert list[j] in list;
    }
    assert IsNextOrder(m, next) && IsNextOrder(m, NextOrder(m));
  }

  // ----- the handlers -----

  function PickColor(c: Color, existing: string): Option<string> {
    match c
    case Unchanged => Some(existing)
    case Changed(v) => Some(v)
    case BadColor => None
  }

  /** The command a handler commits, if it gets that far. */
  ghost function Decide(s: State, r: Request): Option<Command> {
    match r
    case Create(newId, name, color) =>
      if name == "" || PickColor(color, "").None? then None
      else Some(EnvironmentCommand(Set(Environment(newId, name, NextOrder(s.environments), 0, PickColor(color, "").value))))
    case Update(id, newName, newColor) =>
      if id !in s.environments || newName == "" || PickColor(newColor, s.environments[id].color).None? then None
      else Some(EnvironmentCommand(Set(Environment(
             s.environments[id].id, newName, s.environments[id].order, 0, PickColor(newColor, s.environments[id].color).value))))
    case Delete(id) =>
      if id !in s.environments then None else Some(EnvironmentCommand(Records.Op.Delete(id)))
    case Other(c) =>
      if c.EnvironmentCommand? then None else Some(c)
  }

  /** One request, handled with nothing in between its read and its write. */
  ghost function Handle(s: State, index: nat, r: Request): State {
    match Decide(s, r)
    case None => s
    case Some(c) => Step(s, Entry(index, c)).state
  }

  /** A creation stores the name and colour given, or no colour, with an order one
      past the highest in use. */
  lemma CreateStores(s: State, index: nat, r: Request)
    requires r.Create?
    ensures var t := Handle(s, index, r);
      if r.name == "" || r.color.BadColor? then t == s
      else
        && r.newId in t.environments && IsNextOrder(s.environments, t.environments[r.newId].order)
        && Puts(s.environments, t.environments, r.newId, Environment(
                  r.newId, r.name, t.environments[r.newId].order, index, if r.color.Changed? then r.color.color else ""))
  {
    hide Step;
    if Decide(s, r).Some? {
      SetEnvironmentStores(s, index, Decide(s, r).value.environmentOp.value);
    }
  }

  /** An update changes the name, and the colour where it is given; never the
      order. */
  lemma UpdateStores(s: State, last: nat, index: nat, r: Request)
    requires Invariant(s, last) && r.Update?
    ensures var t := Handle(s, index, r);
      if r.id !in s.environments || r.newName == "" || r.newColor.BadColor? then t == s
      else
        var before := s.environments[r.id];
        Puts(s.environments, t.environments, r.id, before.(
               name := r.newName, version := index,
               color := if r.newColor.Changed? then r.newColor.color else before.color))
  {
    hide Step;
    if Decide(s, r).Some? {
      SetEnvironmentStores(s, index, Decide(s, r).value.environmentOp.value);
    }
  }

  lemma DeleteDrops(s: State, index: nat, r: Request)
    requires r.Delete?
    ensures var t := Handle(s, index, r);
      if r.target !in s.environments || IsOnlyKey(s.environments, r.target)
         || (exists k :: k in s.flags && s.flags[k].environmentId == r.target)
         || (exists k :: k in s.credentials && s.credentials[k].environmentId == r.target)
         || (exists k :: k in s.segments && s.segments[k].environmentId == r.target) then t == s
      else Drops(s.environments, t.environments, r.target)
  {
    hide Step, Drops, IsOnlyKey;
    DeleteEnvironmentDrops(s, index, r.target);
  }

  ghost function HandleAll(s: State, last: nat, requests: seq<Request>): State {
    if requests == [] then s
    else Handle(HandleAll(s, last, requests[..|requests| - 1]), last + |requests|, requests[|requests| - 1])
  }

  lemma NoRequests(s: State, last: nat)
    ensures HandleAll(s, last, []) == s
  {
  }

  lemma OneMoreRequest(s: State, last: nat, requests: seq<Request>, r: Request, longer: seq<Request>)
    requires longer == requests + [r]
    ensures HandleAll(s, last, longer) == Handle(HandleAll(s, last, requests), last + |longer|, r)
  {
    hide Handle;
    assert longer[..|longer| - 1] == requests;
  }

  // ----- creation order -----

  /** The IDs given out, in the order of the create requests. */
  function Created(requests: seq<Request>): seq<string> {
    if requests == [] then []
    else
      var r := requests[|requests| - 1];
      Created(requests[..|requests| - 1]) + if r.Create? then [r.newId] else []
  }

  /** NewID gives IDs that are usable and never given out twice. */
  ghost predicate FreshIds(requests: seq<Request>) {
    && (forall i :: 0 <= i < |Created(requests)| ==> IsEnvironmentId(Created(requests)[i]))
    && (forall i, j :: 0 <= i < j < |Created(requests)| ==> Created(requests)[i] != Created(requests)[j])
  }

  /** Every environment was created by a request, and orders follow creation. */
  ghost predicate InCreationOrder(environments: map<string, Environment>, created: seq<string>) {
    && (forall k :: k in environments ==> k in created)
    && (forall i, j :: 0 <= i < j < |created| && created[i] in environments && created[j] in environments ==>
          environments[created[i]].order < environments[created[j]].order)
  }

  lemma CreateKeepsOrder(environments: map<string, Environment>, created: seq<string>, environment: Environment)
    requires InCreationOrder(environments, created) && environment.id !in created
    requires forall k :: k in environments ==> environments[k].order < environment.order
    ensures InCreationOrder(environments[environment.id := environment], created + [environment.id])
  {
  }

  /** Rewriting environments without touching their orders, or removing some. */
  lemma SameOrdersKeep(before: map<string, Environment>, after: map<string, Environment>, created: seq<string>)
    requires InCreationOrder(before, created)
    requires forall k :: k in after ==> k in before && after[k].order == before[k].order
    ensures InCreationOrder(after, created)
  {
  }

  lemma CreateRequest(s: State, index: nat, r: Request, created: seq<string>)
    requires r.Create? && Decide(s, r).Some? && InCreationOrder(s.environments, created) && r.newId !in created
    ensures InCreationOrder(Step(s, Entry(index, Decide(s, r).value)).state.environments, created + [r.newId])
  {
    var environment := Decide(s, r).value.environmentOp.value.(version := index);
    assert Step(s, Entry(index, Decide(s, r).value)) == ApplyEnvironment(s, index, Decide(s, r).value.environmentOp);
    CreateKeepsOrder(s.environments, created, environment);
  }

  lemma UpdateRequest(s: State, last: nat, index: nat, r: Request, created: seq<string>)
    requires Invariant(s, last) && r.Update? && Decide(s, r).Some? && InCreationOrder(s.environments, created)
    ensures InCreationOrder(Step(s, Entry(index, Decide(s, r).value)).state.environments, created)
  {
    var environment := Decide(s, r).value.environmentOp.value.(version := index);
    assert Step(s, Entry(index, Decide(s, r).value)) == ApplyEnvironment(s, index, Decide(s, r).value.environmentOp);
    assert environment.id == r.id && environment.order == s.environments[r.id].order;
    SameOrdersKeep(s.environments, s.environments[environment.id := environment], created);
  }

  lemma DeleteRequest(s: State, index: nat, id: string, created: seq<string>)
    requires InCreationOrder(s.environments, created)
    ensures InCreationOrder(ApplyEnvironment(s, index, Records.Op.Delete(id)).state.environments, created)
  {
    SameOrdersKeep(s.environments, s.environments - {id}, created);
  }

  lemma RequestKeepsOrder(s: State, last: nat, index: nat, r: Request, created: seq<string>)
    requires Invariant(s, last) && last < index && InCreationOrder(s.environments, created)
    requires r.Create? ==> r.newId !in created
    ensures InCreationOrder(Handle(s, index, r).environments, created + if r.Create? then [r.newId] else [])
  {
    if Decide(s, r).None? {
      MoreIdsAreFine(s.environments, created, r);
    } else {
      assert created + [] == created;
      match r
      case Create(_, _, _) => CreateRequest(s, index, r, created);
      case Update(_, _, _) => UpdateRequest(s, last, index, r, created);
      case Delete(id) =>
        DeleteRequest(s, index, id, created);
        assert Handle(s, index, r) == ApplyEnvironment(s, index, Records.Op.Delete(id)).state;
      case Other(c) => OthersStay(s, Entry(index, c));
    }
  }

  lemma RequestIsTransition(s: State, last: nat, index: nat, r: Request)
    requires Invariant(s, last) && last < index
    requires r.Create? ==> IsEnvironmentId(r.newId)
    requires r.Other? ==> Admissible(r.command)
    ensures Invariant(Handle(s, index, r), index)
  {
    match Decide(s, r)
    case None => InvariantIsMonotone(s, last, index);
    case Some(c) =>
      assert Admissible(c);
      StepIsTransition(s, last, Entry(index, c));
  }

  lemma MoreIdsAreFine(environments: map<string, Environment>, created: seq<string>, r: Request)
    requires InCreationOrder(environments, created)
    requires r.Create? ==> r.newId !in created
    ensures InCreationOrder(environments, created + if r.Create? then [r.newId] else [])
  {
  }

  lemma NothingIsInOrder()
    ensures InCreationOrder(map[], [])
  {
  }

  lemma {:induction false} RequestsKeepOrder(s: State, last: nat, requests: seq<Request>)
    requires Invariant(s, last) && s.environments == map[]
    requires FreshIds(requests) && forall i :: 0 <= i < |requests| && requests[i].Other? ==> Admissible(requests[i].command)
    ensures Invariant(HandleAll(s, last, requests), last + |requests|)
    ensures InCreationOrder(HandleAll(s, last, requests).environments, Created(requests))
  {
    hide Invariant, Handle, InCreationOrder;
    if requests == [] {
      NothingIsInOrder();
    } else {
      var n := |requests| - 1;
      var front := requests[..n];
      assert forall i :: 0 <= i < |Created(front)| ==> Created(front)[i] == Created(requests)[i];
      assert requests[n].Create? ==> Created(requests)[|Created(front)|] == requests[n].newId;
      RequestsKeepOrder(s, last, front);
      RequestIsTransition(HandleAll(s, last, front), last + n, last + n + 1, requests[n]);
      RequestKeepsOrder(HandleAll(s, last, front), last + n, last + n + 1, requests[n], Created(front));
    }
  }

  /** The IDs that are still there, in the given order. */
  ghost function Survivors(created: seq<string>, environments: map<string, Environment>): (r: seq<Environment>) {
    if created == [] then []
    else
      var n := |created| - 1;
      Survivors(created[..n], environments) + if created[n] in environments then [environments[created[n]]] else []
  }

  lemma {:induction false} SurvivorsAreListed(created: seq<string>, environments: map<string, Environment>)
    requires forall i, j :: 0 <= i < j < |created| && created[i] in environments && created[j] in environments ==>
      environments[created[i]].order < environments[created[j]].order
    ensures forall v :: v in Survivors(created, environments)
              <==> exists i :: 0 <= i < |created| && created[i] in environments && environments[created[i]] == v
    ensures Ascending(Survivors(created, environments), BY_ORDER)
  {
    if created != [] {
      var n := |created| - 1;
      var front := created[..n];
      SurvivorsAreListed(front, environments);
      var early := Survivors(front, environments);
      if created[n] in environments {
        forall i | 0 <= i < |early| ensures BY_ORDER(early[i], environments[created[n]]) {
          assert early[i] in early;
          var j :| 0 <= j < |front| && front[j] in environments && environments[front[j]] == early[i];
          assert created[j] == front[j];
        }
      }
      assert forall i :: 0 <= i < n ==> front[i] == created[i];
    }
  }

  lemma OrdersAreDistinct(m: map<string, Environment>, created: seq<string>)
    requires InCreationOrder(m, created)
    ensures forall i, j :: i in m && j in m && i != j ==> m[i].order != m[j].order
  {
  }

  /** Over any sequential run of requests from a store without environments, all
      orders stay distinct, and the list is exactly the surviving environments
      in the order they were created. */
  lemma ListIsInCreationOrder(s: State, last: nat, requests: seq<Request>, list: seq<Environment>)
    requires Invariant(s, last) && s.environments == map[]
    requires FreshIds(requests) && forall i :: 0 <= i < |requests| && requests[i].Other? ==> Admissible(requests[i].command)
    requires IsListing(list, Kept(HandleAll(s, last, requests).environments, (v: Environment) => true), BY_ORDER)
    ensures list == Survivors(Created(requests), HandleAll(s, last, requests).environments)
    ensures var m := HandleAll(s, last, requests).environments;
      forall i, j :: i in m && j in m && i != j ==> m[i].order != m[j].order
  {
    hide Invariant, HandleAll, Created, Survivors;
    var m := HandleAll(s, last, requests).environments;
    var created := Created(requests);
    RequestsKeepOrder(s, last, requests);
    SurvivorsAreListed(created, m);
    EnvironmentsSeparate(HandleAll(s, last, requests), last + |requests|);
    forall v ensures v in list <==> v in Survivors(created, m) {
      if v in list {
        var k :| k in m && m[k] == v;
        assert k in created;
      }
    }
    ListingIsUnique(list, Survivors(created, m), BY_ORDER);
    OrdersAreDistinct(m, created);
  }

  // ----- creations that overlap -----

  ghost predicate DistinctOrders(environments: map<string, Environment>) {
    forall i, j :: i in environments && j in environments && i != j ==> environments[i].order != environments[j].order
  }

  /** A creation whose order was computed in an earlier state keeps all orders
      distinct exactly when no environment has come to use that order. */
  lemma StaleCreationKeepsOrdersDistinctExactlyWhen(s: State, t: State, index: nat, r: Request)
    requires r.Create? && Decide(s, r).Some? && r.newId !in t.environments && DistinctOrders(t.environments)
    ensures DistinctOrders(Step(t, Entry(index, Decide(s, r).value)).state.environments)
       <==> forall k :: k in t.environments ==> t.environments[k].order != NextOrder(s.environments)
  {
    var environment := Decide(s, r).value.environmentOp.value.(version := index);
    var after := t.environments[r.newId := environment];
    assert Step(t, Entry(index, Decide(s, r).value)) == ApplyEnvironment(t, index, Decide(s, r).value.environmentOp);
    if DistinctOrders(after) {
      forall k | k in t.environments ensures t.environments[k].order != NextOrder(s.environments) {
        assert k in after && r.newId in after && k != r.newId;
      }
    }
  }

  /** It keeps creation order exactly when every environment in use by then has a
      lower order. */
  lemma StaleCreationKeepsCreationOrderExactlyWhen(s: State, t: State, index: nat, r: Request, created: seq<string>)
    requires r.Create? && Decide(s, r).Some? && r.newId !in created && InCreationOrder(t.environments, created)
    ensures InCreationOrder(Step(t, Entry(index, Decide(s, r).value)).state.environments, created + [r.newId])
       <==> forall k :: k in t.environments ==> t.environments[k].order < NextOrder(s.environments)
  {
    var environment := Decide(s, r).value.environmentOp.value.(version := index);
    var after := t.environments[r.newId := environment];
    assert Step(t, Entry(index, Decide(s, r).value)) == ApplyEnvironment(t, index, Decide(s, r).value.environmentOp);
    var longer := created + [r.newId];
    if InCreationOrder(after, longer) {
      forall k | k in t.environments ensures t.environments[k].order < NextOrder(s.environments) {
        var i :| 0 <= i < |created| && created[i] == k;
        assert longer[i] == k && longer[|created|] == r.newId;
      }
    }
    if forall k :: k in t.environments ==> t.environments[k].order < NextOrder(s.environments) {
      CreateKeepsOrder(t.environments, created, environment);
    }
  }

  /** Two creations that read the same state, whatever it is, collide. */
  lemma OverlappingCreationsCollide(s: State, first: Request, second: Request, index: nat, later: nat)
    requires first.Create? && second.Create? && first.newId != second.newId
    requires Decide(s, first).Some? && Decide(s, second).Some?
    ensures var t := Step(s, Entry(index, Decide(s, first).value)).state;
      !DistinctOrders(Step(t, Entry(later, Decide(s, second).value)).state.environments)
  {
    var t := Step(s, Entry(index, Decide(s, first).value)).state;
    assert Step(s, Entry(index, Decide(s, first).value)) == ApplyEnvironment(s, index, Decide(s, first).value.environmentOp);
    var u := Step(t, Entry(later, Decide(s, second).value)).state;
    assert Step(t, Entry(later, Decide(s, second).value)) == ApplyEnvironment(t, later, Decide(s, second).value.environmentOp);
    assert first.newId in u.environments && second.newId in u.environments;
    assert u.environments[first.newId].order == u.environments[second.newId].order;
  }
}
