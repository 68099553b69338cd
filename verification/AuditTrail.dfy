/** The audit middleware (backend/internal/api/audit_middleware.go): whatever a
    mutating request is answered, the log has one entry that says so. */
module AuditTrail {
  import opened Records
  import opened Machine
  import opened Invariants
  import opened Replica

  // ----- the buffered response -----

  /** What a handler does to its ResponseWriter. */
  datatype Output = Header(status: int) | Text(bytes: seq<Byte>)

  /** Only the first call decides the status; none at all, a write without a
      header, and a header of 0 mean 200. */
  function SentStatus(outputs: seq<Output>): int {
    if outputs == [] || outputs[0].Text? || outputs[0].status == 0 then 200 else outputs[0].status
  }

  function SentBody(outputs: seq<Output>): seq<Byte> {
    if outputs == [] then []
    else
      var o := outputs[|outputs| - 1];
      SentBody(outputs[..|outputs| - 1]) + if o.Text? then o.bytes else []
  }

  class AuditRecorder {
    var body: seq<Byte>
    var status: int
    var wroteHeader: bool

    /** The recorder has seen exactly these calls. */
    ghost predicate Saw(outputs: seq<Output>)
      reads this
    {
      && body == SentBody(outputs)
      && (wroteHeader <==> outputs != [])
      && (if status == 0 then 200 else status) == SentStatus(outputs)
      && (outputs == [] ==> status == 0)
    }

    constructor ()
      ensures Saw([])
    {
      body, status, wroteHeader := [], 0, false;
    }

    method WriteHeader(code: int)
      modifies this
      ensures wroteHeader && body == old(body)
      ensures status == if old(wroteHeader) then old(status) else code
    {
      if wroteHeader {
        return;
      }
      status := code;
      wroteHeader := true;
    }

    method Write(bytes: seq<Byte>)
      modifies this
      ensures wroteHeader && body == old(body) + bytes
      ensures status == if old(wroteHeader) then old(status) else 200
    {
      if !wroteHeader {
        WriteHeader(200);
      }
      body := body + bytes;
    }

    method Play(outputs: seq<Output>)
      requires Saw([])
      modifies this
      ensures Saw(outputs)
    {
      for i := 0 to |outputs|
        invariant Saw(outputs[..i])
      {
        assert outputs[..i + 1][..i] == outputs[..i];
        match outputs[i] {
          case Header(code) => WriteHeader(code);
          case Text(bytes) => Write(bytes);
        }
      }
      assert outputs[..|outputs|] == outputs;
    }
  }

  // ----- one request -----

  datatype BodyRead = Readable | TooLarge | Unreadable

  /** What the middleware reads out of a response body. */
  datatype Reading = Reading(
    targetId: seq<Byte> -> string, redacted: seq<Byte> -> string, message: seq<Byte> -> string)

  /** A mutating request: what it is about, what its handler writes and commits,
      and the index its audit entry is committed at, if it is. */
  datatype Request = Request(
    action: string, targetType: string, pathId: string, actorId: string, service: bool, before: string,
    body: BodyRead, refusal: seq<Byte>, outputs: seq<Output>, commits: seq<Entry>,
    now: int, recordedAt: Option<nat>) {

    /** The handler never runs on a body that cannot be read. */
    function Outputs(): seq<Output> {
      match body
      case Readable => outputs
      case TooLarge => [Header(413), Text(refusal)]
      case Unreadable => [Header(400), Text(refusal)]
    }

    function Commits(): seq<Entry> {
      if body.Readable? then commits else []
    }
  }

  /** The buffered answer, or a 500 that says whether the mutation may have
      been applied. */
  datatype Reply = Answer(status: int, body: seq<Byte>) | AuditFailed(mayBeApplied: bool)

  function ReplyTo(r: Request): Reply {
    if r.recordedAt.Some? then Answer(SentStatus(r.Outputs()), SentBody(r.Outputs())) else AuditFailed(r.body.Readable?)
  }

  predicate IsSuccess(status: int) {
    200 <= status < 300
  }

  function EntryFor(r: Request, reading: Reading): AuditEntry {
    var status := SentStatus(r.Outputs());
    var body := SentBody(r.Outputs());
    AuditEntry(
      0, r.now, r.actorId, if r.service then "applicationCredential" else "user", r.action, r.targetType,
      if r.pathId != "" then r.pathId else reading.targetId(body), if r.body.Readable? then r.before else "",
      if IsSuccess(status) then reading.redacted(body) else "",
      IsSuccess(status), status,
      if IsSuccess(status) then "" else reading.message(body))
  }

  function Recording(r: Request, reading: Reading): seq<Entry> {
    if r.recordedAt.Some? then [Entry(r.recordedAt.value, AuditCommand(Append(EntryFor(r, reading))))] else []
  }

  function Handled(s: State, r: Request, reading: Reading): State {
    Run(s, r.Commits() + Recording(r, reading))
  }

  /** The entry is about this request and tells what the client was told. */
  ghost predicate Tells(entry: AuditEntry, r: Request, reading: Reading, status: int, body: seq<Byte>) {
    && entry.statusCode == status && (entry.success <==> 200 <= status < 300)
    && entry.action == r.action && entry.targetType == r.targetType
    && entry.actorId == r.actorId && entry.timestamp == r.now
    && entry.actorType == (if r.service then "applicationCredential" else "user")
    && entry.targetId == (if r.pathId != "" then r.pathId else reading.targetId(body))
    && entry.before == (if r.body.Readable? then r.before else "")
    && entry.after == (if 200 <= status < 300 then reading.redacted(body) else "")
    && entry.error == (if 200 <= status < 300 then "" else reading.message(body))
  }

  /** A request that was answered has an entry of its own in the log. */
  ghost predicate OnRecord(t: State, r: Request, reading: Reading) {
    ReplyTo(r).Answer? ==>
      && r.recordedAt.Some? && r.recordedAt.value in t.audits
      && t.audits[r.recordedAt.value].id == r.recordedAt.value
      && Tells(t.audits[r.recordedAt.value], r, reading, ReplyTo(r).status, ReplyTo(r).body)
  }

  lemma EntryTellsTheReply(r: Request, reading: Reading)
    requires ReplyTo(r).Answer?
    ensures Tells(EntryFor(r, reading), r, reading, ReplyTo(r).status, ReplyTo(r).body)
  {
  }

  /** The reply is the buffered one exactly when the entry was appended. A body
      that cannot be read is answered 413 when it is too large and 400 otherwise,
      and commits nothing. */
  lemma RepliesExactly(r: Request)
    ensures ReplyTo(r).Answer? <==> r.recordedAt.Some?
    ensures ReplyTo(r).AuditFailed? ==> (ReplyTo(r).mayBeApplied <==> r.body.Readable?)
    ensures ReplyTo(r).Answer? && r.body.TooLarge? ==> ReplyTo(r) == Answer(413, r.refusal)
    ensures ReplyTo(r).Answer? && r.body.Unreadable? ==> ReplyTo(r) == Answer(400, r.refusal)
    ensures !r.body.Readable? ==> r.Commits() == []
  {
    assert r.body.TooLarge? ==> r.Outputs()[..1] == [Header(413)];
    assert r.body.Unreadable? ==> r.Outputs()[..1] == [Header(400)];
    assert forall h :: SentBody([Header(h)]) == [] by {
      forall h ensures SentBody([Header(h)]) == [] { assert [Header(h)][..0] == []; }
    }
  }

  lemma HandledIsOnRecord(s: State, r: Request, reading: Reading)
    ensures OnRecord(Handled(s, r, reading), r, reading)
  {
    hide EntryFor, Tells;
    RunStateFromCut(s, r.Commits(), Recording(r, reading));
    if r.recordedAt.Some? {
      assert Recording(r, reading)[..0] == [];
      EntryTellsTheReply(r, reading);
      EntryIdIsNotTold(EntryFor(r, reading), r.recordedAt.value, r, reading);
    }
  }

  lemma EntryIdIsNotTold(entry: AuditEntry, id: nat, r: Request, reading: Reading)
    requires ReplyTo(r).Answer? && Tells(entry, r, reading, ReplyTo(r).status, ReplyTo(r).body)
    ensures Tells(entry.(id := id), r, reading, ReplyTo(r).status, ReplyTo(r).body)
  {
  }

  /** What the handler committed is there; recording only adds to the audit log. */
  lemma CommitsAreKept(s: State, r: Request, reading: Reading)
    ensures var t := Handled(s, r, reading);
      t == Run(s, if r.body.Readable? then r.commits else []).(audits := t.audits)
  {
    hide EntryFor;
    RunStateFromCut(s, r.Commits(), Recording(r, reading));
    if r.recordedAt.Some? {
      assert Recording(r, reading)[..0] == [];
    }
  }

  /** withAudit and recordAudit: buffer, append, and only then answer. */
  method WithAudit(fsm: Fsm, r: Request, reading: Reading) returns (reply: Reply)
    modifies fsm
    ensures fsm.Abs() == Handled(old(fsm.Abs()), r, reading)
    ensures reply == ReplyTo(r) && OnRecord(fsm.Abs(), r, reading)
    ensures fsm.Abs() == Run(old(fsm.Abs()), if r.body.Readable? then r.commits else []).(audits := fsm.audits)
  {
    hide OnRecord;
    HandledIsOnRecord(fsm.Abs(), r, reading);
    CommitsAreKept(fsm.Abs(), r, reading);
    ghost var s := fsm.Abs();
    var recorder := new AuditRecorder();
    recorder.Play(r.Outputs());
    if r.body.Readable? {
      var _ := fsm.Replay(r.commits);
    }
    assert recorder.Saw(r.Outputs());
    var status := if recorder.status == 0 then 200 else recorder.status;
    var entry := AuditEntry(
      0, r.now, r.actorId, if r.service then "applicationCredential" else "user", r.action, r.targetType,
      if r.pathId != "" then r.pathId else reading.targetId(recorder.body),
      if r.body.Readable? then r.before else "", "", IsSuccess(status), status, "");
    if IsSuccess(status) {
      entry := entry.(after := reading.redacted(recorder.body));
    } else {
      entry := entry.(error := reading.message(recorder.body));
    }
    RunStateFromCut(s, r.Commits(), Recording(r, reading));
    if r.recordedAt.None? {
      return AuditFailed(r.body.Readable?);
    }
    var _ := fsm.Apply(Entry(r.recordedAt.value, AuditCommand(Append(entry))));
    assert Recording(r, reading)[..0] == [];
    return Answer(status, recorder.body);
  }

  // ----- the trail -----

  ghost predicate NoAudits(log: seq<Entry>) {
    forall i :: 0 <= i < |log| ==> !log[i].command.AuditCommand?
  }

  /** Handlers commit no audit entries of their own, and the log grows from one
      request to the next. */
  ghost predicate Follows(r: Request, reading: Reading, last: nat) {
    NoAudits(r.Commits()) && IndexesGrow(r.Commits() + Recording(r, reading), last)
  }

  function IndexAfter(r: Request, last: nat): nat {
    if r.recordedAt.Some? then r.recordedAt.value else LastIndex(r.Commits(), last)
  }

  function HandledAll(s: State, requests: seq<Request>, reading: Reading): State {
    if requests == [] then s
    else Handled(HandledAll(s, requests[..|requests| - 1], reading), requests[|requests| - 1], reading)
  }

  function IndexAfterAll(requests: seq<Request>, last: nat): nat {
    if requests == [] then last
    else IndexAfter(requests[|requests| - 1], IndexAfterAll(requests[..|requests| - 1], last))
  }

  ghost predicate AllFollow(requests: seq<Request>, reading: Reading, last: nat) {
    requests != [] ==>
      && AllFollow(requests[..|requests| - 1], reading, last)
      && Follows(requests[|requests| - 1], reading, IndexAfterAll(requests[..|requests| - 1], last))
  }

  function Answered(requests: seq<Request>): nat {
    if requests == [] then 0
    else Answered(requests[..|requests| - 1]) + if ReplyTo(requests[|requests| - 1]).Answer? then 1 else 0
  }

  lemma {:induction false} OtherCommandsLeaveTheTrail(s: State, log: seq<Entry>)
    requires NoAudits(log)
    ensures Run(s, log).audits == s.audits
  {
    if log != [] {
      OtherCommandsLeaveTheTrail(s, log[..|log| - 1]);
      OthersStay(Run(s, log[..|log| - 1]), log[|log| - 1]);
    }
  }

  /** A request adds its own entry to the log, and nothing else. */
  lemma RequestAddsItsEntry(s: State, r: Request, reading: Reading, t: State)
    requires NoAudits(r.Commits()) && t == Handled(s, r, reading)
    ensures t.audits ==
      if r.recordedAt.Some? then s.audits[r.recordedAt.value := EntryFor(r, reading).(id := r.recordedAt.value)]
      else s.audits
  {
    hide EntryFor;
    RunStateFromCut(s, r.Commits(), Recording(r, reading));
    OtherCommandsLeaveTheTrail(s, r.Commits());
    if r.recordedAt.Some? {
      assert Recording(r, reading)[..0] == [];
    }
  }

  lemma RecordIndexIsNew(s: State, last: nat, r: Request, reading: Reading)
    requires AuditsOk(s.audits, last) && Follows(r, reading, last)
    ensures NoAudits(r.Commits()) && last <= IndexAfter(r, last)
    ensures r.recordedAt.Some? ==> r.recordedAt.value !in s.audits
    ensures AuditsOk(Handled(s, r, reading).audits, IndexAfter(r, last))
  {
    hide EntryFor, Run;
    RequestAddsItsEntry(s, r, reading, Handled(s, r, reading));
    var log := r.Commits() + Recording(r, reading);
    if r.recordedAt.Some? {
      assert log[|r.Commits()|].index == r.recordedAt.value;
    } else if r.Commits() != [] {
      assert log[|r.Commits()| - 1] == r.Commits()[|r.Commits()| - 1];
    }
  }

  lemma NewEntryIsOnRecord(s: State, r: Request, reading: Reading, t: State)
    requires t.audits ==
      if r.recordedAt.Some? then s.audits[r.recordedAt.value := EntryFor(r, reading).(id := r.recordedAt.value)]
      else s.audits
    ensures OnRecord(t, r, reading)
  {
    hide EntryFor;
    if r.recordedAt.Some? {
      EntryTellsTheReply(r, reading);
    }
  }

  lemma EarlierStaysOnRecord(s: State, earlier: Request, r: Request, reading: Reading, t: State)
    requires OnRecord(s, earlier, reading)
    requires r.recordedAt.Some? ==> r.recordedAt.value !in s.audits
    requires t.audits ==
      if r.recordedAt.Some? then s.audits[r.recordedAt.value := EntryFor(r, reading).(id := r.recordedAt.value)]
      else s.audits
    ensures OnRecord(t, earlier, reading)
  {
    hide EntryFor;
  }

  /** Over any sequential run of mutating requests: each one that was answered
      is on record with its own entry, each one that is not on record was told
      so, and the log has gained nothing else. */
  lemma {:induction false} TrailMatchesTheReplies(s: State, last: nat, requests: seq<Request>, reading: Reading, t: State)
    requires AuditsOk(s.audits, last) && AllFollow(requests, reading, last) && t == HandledAll(s, requests, reading)
    ensures AuditsOk(t.audits, IndexAfterAll(requests, last)) && last <= IndexAfterAll(requests, last)
    ensures forall i :: 0 <= i < |requests| ==>
      (ReplyTo(requests[i]).Answer? <==> requests[i].recordedAt.Some?) && OnRecord(t, requests[i], reading)
    ensures forall id :: id in s.audits ==> Inherited(s.audits, t.audits, id)
    ensures |t.audits| == |s.audits| + Answered(requests)
  {
    hide EntryFor, Follows, Handled, IndexAfter, OnRecord;
    if requests != [] {
      var n := |requests| - 1;
      var r := requests[n];
      var u := HandledAll(s, requests[..n], reading);
      var middle := IndexAfterAll(requests[..n], last);
      TrailMatchesTheReplies(s, last, requests[..n], reading, u);
      RecordIndexIsNew(u, middle, r, reading);
      RequestAddsItsEntry(u, r, reading, t);
      NewEntryIsOnRecord(u, r, reading, t);
      forall i | 0 <= i < n ensures OnRecord(t, requests[i], reading) {
        assert requests[i] == requests[..n][i];
        EarlierStaysOnRecord(u, requests[i], r, reading, t);
      }
    }
  }

  /** However requests overlap: in every log that holds a request's recording
      somewhere the request is on record. */
  lemma RecordingIsOnRecord(s: State, last: nat, log: seq<Entry>, r: Request, reading: Reading, i: nat)
    requires (forall k :: k in s.audits ==> k <= last) && IndexesGrow(log, last)
    requires r.recordedAt.Some? && i < |log| && [log[i]] == Recording(r, reading)
    ensures OnRecord(Run(s, log), r, reading)
  {
    hide EntryFor, Run;
    AuditLogIsTheAppends(s, last, log, Run(s, log));
    assert log[i] == Recording(r, reading)[0];
    EntryTellsTheReply(r, reading);
  }
}
