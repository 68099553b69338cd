/** Audit pages (backend/internal/api/audits.go): cursors are IDs, found by
    binary search in a list that grows at its front between requests. */
module AuditPages {
  import opened Records
  import opened Machine
  import opened Invariants
  import opened Listing
  import opened Replica
  import opened Decimal
  import opened OffsetPages

  // ----- filters -----

  /** Fields are AND-combined; "" and 0 match anything. Times are inclusive. */
  datatype AuditFilter = AuditFilter(targetType: string, targetId: string, actorId: string, from: int, to: int) {
    predicate Matches(e: AuditEntry): (m: bool)
      ensures m <==>
        && (from == 0 || from <= e.timestamp) && (to == 0 || e.timestamp <= to)
        && targetType in ["", e.targetType] && targetId in ["", e.targetId] && actorId in ["", e.actorId]
    {
      if from != 0 && e.timestamp < from then false
      else if to != 0 && e.timestamp > to then false
      else if targetType != "" && e.targetType != targetType then false
      else if targetId != "" && e.targetId != targetId then false
      else if actorId != "" && e.actorId != actorId then false
      else true
    }

    function Wanted(): AuditEntry -> bool {
      (e: AuditEntry) => Matches(e)
    }
  }

  // ----- one page -----

  /** A parsed time: absent is 0, unbounded. */
  datatype TimeParam = BadTime | Seconds(value: int)

  datatype AuditQuery = AuditQuery(
    limit: Option<string>, cursor: Option<string>, targetType: string, targetId: string, actorId: string,
    from: TimeParam, to: TimeParam) {
    predicate BadTimeRange() {
      from.BadTime? || to.BadTime? || (from.value != 0 && to.value != 0 && from.value > to.value)
    }

    function Filter(): AuditFilter
      requires !BadTimeRange()
    {
      AuditFilter(targetType, targetId, actorId, from.value, to.value)
    }
  }

  datatype AuditAnswer = BadCursor | BadTimes | Audits(entries: seq<AuditEntry>, page: Page)

  /** A listing: newest first, with the IDs of a Raft log. */
  ghost predicate IsAuditList(all: seq<AuditEntry>) {
    && (forall i :: 0 <= i < |all| ==> 1 <= all[i].id <= MAX_UINT64)
    && (forall i, j :: 0 <= i < j < |all| ==> all[i].id > all[j].id)
  }

  /** Row `from` is the first whose ID is below the cursor; 0 is no cursor. */
  ghost predicate BeginsBelow(all: seq<AuditEntry>, before: nat, from: nat) {
    && from <= |all|
    && (before == 0 ==> from == 0)
    && (before != 0 ==> forall i :: 0 <= i < |all| ==> (all[i].id < before <==> from <= i))
  }

  /** uint64 addition wraps around. */
  function CursorAbove(id: nat): nat {
    if id == MAX_UINT64 then 0 else id + 1
  }

  function PreviousRow(from: nat, limit: int): nat
    requires limit >= 1
  {
    if from <= limit then 0 else from - limit
  }

  ghost predicate IsAuditWindow(a: AuditAnswer, all: seq<AuditEntry>, limit: int, from: nat) {
    && limit >= 1 && a.Audits? && from <= |all|
    && var to := from + |a.entries|;
       && to <= |all| && a.entries == all[from..to]
       && |a.entries| <= limit && (|a.entries| < limit ==> to == |all|)
       && a.page.limit == limit && a.page.total == |all|
       && (if a.entries == [] then a.page.start == 0 && a.page.end == 0 else a.page.start == from + 1 && a.page.end == to)
       && (if to == |all| then a.page.nextCursor == "" else to > 0 && a.page.nextCursor == FormatUint(all[to - 1].id))
       && (if from == 0 then a.page.prevCursor == ""
           else a.page.prevCursor == FormatUint(CursorAbove(all[PreviousRow(from, limit)].id)))
  }

  /** What the handler promises about a listing. */
  ghost predicate IsAuditPage(a: AuditAnswer, limit: Option<string>, cursor: Option<string>, all: seq<AuditEntry>) {
    var before := if Get(cursor) == "" then Some(0) else ParseUint(Get(cursor));
    match before
    case None => a == BadCursor
    case Some(id) => exists from :: BeginsBelow(all, id, from) && IsAuditWindow(a, all, ParseLimit(limit), from)
  }

  /** sort.Search for the first entry below the cursor. */
  method SearchBelow(all: seq<AuditEntry>, before: nat) returns (i: nat)
    requires IsAuditList(all)
    ensures i <= |all| && forall k :: 0 <= k < |all| ==> (all[k].id < before <==> i <= k)
  {
    var j := |all|;
    i := 0;
    while i < j
      invariant i <= j <= |all|
      invariant forall k :: 0 <= k < i ==> all[k].id >= before
      invariant forall k :: j <= k < |all| ==> all[k].id < before
    {
      var h := (i + j) / 2;
      if !(all[h].id < before) {
        i := h + 1;
      } else {
        j := h;
      }
    }
  }

  method PageOf(all: seq<AuditEntry>, limit: int, before: nat) returns (a: AuditAnswer)
    requires IsAuditList(all) && limit >= 1
    ensures a.Audits? && exists from :: BeginsBelow(all, before, from) && IsAuditWindow(a, all, limit, from)
  {
    hide FormatUint;
    var startIdx: nat := 0;
    if before != 0 {
      startIdx := SearchBelow(all, before);
    }
    var endIdx := if startIdx + limit < |all| then startIdx + limit else |all|;
    var entries := all[startIdx..endIdx];
    var page := Page(limit, |all|, 0, 0, "", "");
    if |entries| > 0 {
      page := page.(start := startIdx + 1, end := endIdx);
    }
    if startIdx > 0 {
      var previous := if startIdx - limit > 0 then startIdx - limit else 0;
      page := page.(prevCursor := FormatUint(CursorAbove(all[previous].id)));
    }
    if endIdx < |all| {
      page := page.(nextCursor := FormatUint(all[endIdx - 1].id));
    }
    a := Audits(entries, page);
    assert BeginsBelow(all, before, startIdx) && IsAuditWindow(a, all, limit, startIdx);
  }

  /** What a query lists: the entries that agree with it parameter by parameter,
      newest first. */
  lemma QueryListsExactly(audits: map<nat, AuditEntry>, query: AuditQuery, all: seq<AuditEntry>)
    requires !query.BadTimeRange() && IsListing(all, Kept(audits, query.Filter().Wanted()), NEWEST_FIRST)
    ensures forall i, j :: 0 <= i < j < |all| ==> all[i].id > all[j].id
    ensures forall e: AuditEntry :: e in all <==>
      && (exists id :: id in audits && audits[id] == e)
      && (query.targetType == "" || query.targetType == e.targetType)
      && (query.targetId == "" || query.targetId == e.targetId)
      && (query.actorId == "" || query.actorId == e.actorId)
      && (query.from.value == 0 || query.from.value <= e.timestamp)
      && (query.to.value == 0 || e.timestamp <= query.to.value)
  {
    forall e ensures e in all <==> (exists id :: id in audits && audits[id] == e) && query.Filter().Matches(e) {
      assert e in all <==> e in Kept(audits, query.Filter().Wanted());
    }
  }

  /** auditsGetHandler: the cursor is looked at first, then the times, and only
      then the log. */
  method AuditsGet(fsm: Fsm, query: AuditQuery, ghost last: nat) returns (a: AuditAnswer)
    requires AuditsOk(fsm.audits, last) && last <= MAX_UINT64
    ensures a.BadCursor? <==> Get(query.cursor) != "" && ParseUint(Get(query.cursor)).None?
    ensures a.BadTimes? <==> !a.BadCursor? && query.BadTimeRange()
    ensures query.BadTimeRange() <==>
      || query.from.BadTime? || query.to.BadTime?
      || (query.from.value != 0 && query.to.value != 0 && query.from.value > query.to.value)
    ensures a.Audits? ==> exists all: seq<AuditEntry> ::
      && IsListing(all, Kept(fsm.audits, query.Filter().Wanted()), NEWEST_FIRST)
      && IsAuditPage(a, query.limit, query.cursor, all)
      && (forall i, j :: 0 <= i < j < |all| ==> all[i].id > all[j].id)
      && (forall e: AuditEntry :: e in all <==>
            && (exists id :: id in fsm.audits && fsm.audits[id] == e)
            && (query.targetType == "" || query.targetType == e.targetType)
            && (query.targetId == "" || query.targetId == e.targetId)
            && (query.actorId == "" || query.actorId == e.actorId)
            && (query.from.value == 0 || query.from.value <= e.timestamp)
            && (query.to.value == 0 || e.timestamp <= query.to.value))
  {
    hide ParseUint, ParseLimit, IsAuditWindow, BeginsBelow, IsListing, Kept;
    var limit := ParseLimit(query.limit);
    var before := 0;
    var cursor := Get(query.cursor);
    if cursor != "" {
      var parsed := ParseUint(cursor);
      if parsed.None? {
        return BadCursor;
      }
      before := parsed.value;
    }
    if query.BadTimeRange() {
      return BadTimes;
    }
    var all := fsm.ListAudits(query.Filter().Wanted(), last);
    ListingIsAuditList(fsm.Abs(), last, query.Filter().Wanted(), all);
    a := PageOf(all, limit, before);
    assert IsAuditPage(a, query.limit, query.cursor, all);
    QueryListsExactly(fsm.audits, query, all);
  }

  lemma ListingIsAuditList(s: State, last: nat, wanted: AuditEntry -> bool, all: seq<AuditEntry>)
    requires AuditsOk(s.audits, last) && last <= MAX_UINT64 && IsListing(all, Kept(s.audits, wanted), NEWEST_FIRST)
    ensures IsAuditList(all)
    ensures forall i :: 0 <= i < |all| ==> all[i].id <= last
  {
    forall i | 0 <= i < |all| ensures 1 <= all[i].id <= last {
      assert all[i] in all;
      var k :| k in s.audits && s.audits[k] == all[i];
    }
    assert AuditsOk(s.audits, last);
  }

  // ----- walking while the log grows -----

  /** The view of a later request: newer entries in front of the base. */
  ghost predicate Grown(view: seq<AuditEntry>, base: seq<AuditEntry>) {
    IsAuditList(view) && |base| <= |view| && view[|view| - |base|..] == base
  }

  ghost predicate HasNextAudits(a: AuditAnswer) {
    a.Audits? && a.page.nextCursor != ""
  }

  /** Page after page from the first one, each read from the view of its own
      moment and with a limit of its own. */
  ghost predicate IsAuditWalk(pages: seq<AuditAnswer>, limits: seq<Option<string>>, views: seq<seq<AuditEntry>>) {
    && |pages| == |limits| == |views| > 0
    && IsAuditPage(pages[0], limits[0], None, views[0])
    && forall i :: 0 < i < |pages| ==> IsNextAuditPage(pages[i - 1], limits[i], pages[i], views[i])
  }

  ghost predicate IsNextAuditPage(before: AuditAnswer, limit: Option<string>, a: AuditAnswer, view: seq<AuditEntry>) {
    HasNextAudits(before) && IsAuditPage(a, limit, Some(before.page.nextCursor), view)
  }

  function AllEntries(pages: seq<AuditAnswer>): seq<AuditEntry> {
    if pages == [] then []
    else
      var last := pages[|pages| - 1];
      AllEntries(pages[..|pages| - 1]) + if last.Audits? then last.entries else []
  }

  /** The page ends after `done` rows of the base and says so. */
  ghost predicate EndsAfter(a: AuditAnswer, base: seq<AuditEntry>, done: nat) {
    && a.Audits? && done <= |base| && (done < |base| ==> done > 0)
    && a.page.nextCursor == if done == |base| then "" else FormatUint(base[done - 1].id)
  }

  lemma SliceOfTail(view: seq<AuditEntry>, newer: nat, row: nat, count: nat)
    requires newer + row + count <= |view|
    ensures view[newer..][row..row + count] == view[newer + row..newer + row + count]
  {
  }

  /** A page read at the row after `done` base entries goes on from there. */
  lemma WindowGoesOn(a: AuditAnswer, view: seq<AuditEntry>, base: seq<AuditEntry>, limit: int, done: nat)
    requires Grown(view, base) && done <= |base| && limit >= 1
    requires IsAuditWindow(a, view, limit, |view| - |base| + done) && (done == |base| ==> done == |view|)
    ensures a.entries == base[done..done + |a.entries|]
    ensures EndsAfter(a, base, done + |a.entries|)
    ensures done < |base| ==> a.entries != []
  {
    hide FormatUint, IsAuditList;
    SliceOfTail(view, |view| - |base|, done, |a.entries|);
    if a.entries != [] {
      assert view[|view| - |base|..][done + |a.entries| - 1] == base[done + |a.entries| - 1];
    }
  }

  lemma FirstAuditPage(a: AuditAnswer, limit: Option<string>, base: seq<AuditEntry>)
    requires IsAuditList(base) && IsAuditPage(a, limit, None, base)
    ensures a.Audits? && a.entries == base[..|a.entries|] && |a.entries| <= |base|
    ensures EndsAfter(a, base, |a.entries|)
    ensures base != [] ==> a.entries != []
  {
  }

  lemma BelowRow(all: seq<AuditEntry>, row: nat, from: nat)
    requires IsAuditList(all) && 0 < row <= |all| && BeginsBelow(all, all[row - 1].id, from)
    ensures from == row
  {
    assert row < |all| ==> all[row].id < all[row - 1].id;
  }

  /** The cursor after `done` rows of the base finds its place in any later
      view: the newer entries are passed over. */
  lemma NextAuditPage(
      before: AuditAnswer, limit: Option<string>, a: AuditAnswer,
      view: seq<AuditEntry>, base: seq<AuditEntry>, done: nat)
    requires Grown(view, base) && IsAuditList(base) && EndsAfter(before, base, done) && HasNextAudits(before)
    requires IsAuditPage(a, limit, Some(before.page.nextCursor), view)
    ensures a.Audits? && a.entries != [] && done + |a.entries| <= |base|
    ensures a.entries == base[done..done + |a.entries|]
    ensures EndsAfter(a, base, done + |a.entries|)
  {
    hide FormatUint, ParseUint, BeginsBelow, IsAuditWindow;
    var row := |view| - |base| + done;
    assert view[row - 1].id == base[done - 1].id by { assert view[|view| - |base|..][done - 1] == base[done - 1]; }
    UintRoundTrip(view[row - 1].id);
    var from: nat :| BeginsBelow(view, view[row - 1].id, from) && IsAuditWindow(a, view, ParseLimit(limit), from);
    BelowRow(view, row, from);
    WindowGoesOn(a, view, base, ParseLimit(limit), done);
  }

  /** Whatever is appended between the requests and whatever their limits, the
      pages together are the entries that were there at the first request, each
      once and newest first, up to where the walk has come; it is over exactly
      when it has shown them all, after at most one request per entry. */
  lemma {:induction false} WalkShowsTheFirstView(
      pages: seq<AuditAnswer>, limits: seq<Option<string>>, views: seq<seq<AuditEntry>>, base: seq<AuditEntry>, last: AuditAnswer)
    requires IsAuditList(base) && IsAuditWalk(pages, limits, views) && last == pages[|pages| - 1]
    requires views[0] == base && forall i :: 0 <= i < |views| ==> Grown(views[i], base)
    ensures EndsAfter(last, base, |AllEntries(pages)|)
    ensures AllEntries(pages) <= base
    ensures HasNextAudits(last) <==> AllEntries(pages) != base
    ensures base != [] ==> |pages| <= |AllEntries(pages)|
  {
    hide FormatUint, ParseUint, IsAuditPage, Grown, IsAuditList, HasNextAudits;
    var n := |pages| - 1;
    if n == 0 {
      FirstAuditPage(last, limits[0], base);
    } else {
      var done := |AllEntries(pages[..n])|;
      WalkShowsTheFirstView(pages[..n], limits[..n], views[..n], base, pages[n - 1]);
      NextAuditPage(pages[n - 1], limits[n], last, views[n], base, done);
    }
    NextIsOfferedUntilDone(last, base, |AllEntries(pages)|);
  }

  lemma NextIsOfferedUntilDone(a: AuditAnswer, base: seq<AuditEntry>, done: nat)
    requires EndsAfter(a, base, done)
    ensures HasNextAudits(a) <==> done < |base|
  {
  }

  // ----- going back -----

  lemma AboveRow(all: seq<AuditEntry>, row: nat, from: nat)
    requires IsAuditList(all) && row < |all| && BeginsBelow(all, CursorAbove(all[row].id), from)
    ensures from == row
  {
    if row > 0 {
      assert all[row - 1].id > all[row].id;
    }
  }

  /** The entries of a page are those at `row` of a listing, as many as its limit
      allows. */
  ghost predicate Shows(a: AuditAnswer, all: seq<AuditEntry>, limit: int, row: nat) {
    && a.Audits? && row + |a.entries| <= |all| && a.entries == all[row..row + |a.entries|]
    && |a.entries| <= limit && (|a.entries| < limit ==> row + |a.entries| == |all|)
  }

  lemma WindowShows(a: AuditAnswer, view: seq<AuditEntry>, base: seq<AuditEntry>, limit: int, row: nat)
    requires Grown(view, base) && IsAuditWindow(a, view, limit, |view| - |base| + row)
    ensures Shows(a, base, limit, row)
  {
    hide FormatUint, IsAuditList;
    SliceOfTail(view, |view| - |base|, row, |a.entries|);
  }

  /** An entry of the base is found behind the newer ones. */
  lemma SharedRow(view: seq<AuditEntry>, base: seq<AuditEntry>, row: nat)
    requires Grown(view, base) && row < |base|
    ensures IsAuditList(view) && |base| <= |view|
    ensures view[|view| - |base| + row] == base[row] && 1 <= base[row].id <= MAX_UINT64
  {
    assert view[|view| - |base|..][row] == base[row];
  }

  /** Whatever was appended meanwhile and whatever the limit of the request, the
      previous cursor of a page leads exactly one limit back, even where adding
      one to the ID wraps around. */
  lemma PreviousGoesBack(
      a: AuditAnswer, l: int, from: nat, limit: Option<string>, b: AuditAnswer, all: seq<AuditEntry>, view: seq<AuditEntry>)
    requires Grown(view, all) && IsAuditList(all) && from > 0 && IsAuditWindow(a, all, l, from)
    requires IsAuditPage(b, limit, Some(a.page.prevCursor), view)
    ensures IsAuditWindow(b, view, ParseLimit(limit), |view| - |all| + PreviousRow(from, l))
    ensures Shows(b, all, ParseLimit(limit), PreviousRow(from, l))
  {
    hide FormatUint, ParseUint, BeginsBelow, Shows, Grown, IsAuditList;
    SharedRow(view, all, PreviousRow(from, l));
    var row := |view| - |all| + PreviousRow(from, l);
    var cursor := CursorAbove(view[row].id);
    UintRoundTrip(cursor);
    var back: nat :| BeginsBelow(view, cursor, back) && IsAuditWindow(b, view, ParseLimit(limit), back);
    AboveRow(view, row, back);
    WindowShows(b, view, all, ParseLimit(limit), PreviousRow(from, l));
  }

  lemma NextFollows(
      a: AuditAnswer, l: int, from: nat, limit: Option<string>, b: AuditAnswer, all: seq<AuditEntry>, view: seq<AuditEntry>)
    requires Grown(view, all) && IsAuditList(all) && IsAuditWindow(a, all, l, from) && HasNextAudits(a)
    requires IsAuditPage(b, limit, Some(a.page.nextCursor), view)
    ensures IsAuditWindow(b, view, ParseLimit(limit), |view| - |all| + from + l)
  {
    hide FormatUint, ParseUint, BeginsBelow, Grown, IsAuditList;
    var to := from + |a.entries|;
    SharedRow(view, all, to - 1);
    var row := |view| - |all| + to;
    UintRoundTrip(view[row - 1].id);
    var next: nat :| BeginsBelow(view, view[row - 1].id, next) && IsAuditWindow(b, view, ParseLimit(limit), next);
    BelowRow(view, row, next);
  }

  lemma GrownTwice(later: seq<AuditEntry>, view: seq<AuditEntry>, base: seq<AuditEntry>)
    requires Grown(later, view) && Grown(view, base)
    ensures Grown(later, base)
  {
    hide IsAuditList;
    assert later[|later| - |base|..] == view[|view| - |base|..] by {
      assert later[|later| - |view|..] == view;
    }
  }

  lemma ShowTheSame(a: AuditAnswer, b: AuditAnswer, all: seq<AuditEntry>, limit: int, row: nat)
    requires Shows(a, all, limit, row) && Shows(b, all, limit, row)
    ensures a.entries == b.entries
  {
  }

  lemma AnswersAreAudits(a: AuditAnswer, all: seq<AuditEntry>, limit: int, from: nat)
    requires IsAuditWindow(a, all, limit, from)
    ensures a.Audits?
  {
  }

  /** Going on and back again shows the same page, whatever was appended before
      either request. */
  lemma NextThenPreviousAudits(
      a: AuditAnswer, limit: Option<string>, cursor: Option<string>, b: AuditAnswer, c: AuditAnswer,
      all: seq<AuditEntry>, view: seq<AuditEntry>, later: seq<AuditEntry>)
    requires IsAuditList(all) && Grown(view, all) && Grown(later, view)
    requires IsAuditPage(a, limit, cursor, all) && HasNextAudits(a)
    requires IsAuditPage(b, limit, Some(a.page.nextCursor), view)
    requires b.Audits? ==> IsAuditPage(c, limit, Some(b.page.prevCursor), later)
    ensures b.Audits? && c.Audits? && c.entries == a.entries
  {
    hide FormatUint, ParseUint, BeginsBelow, IsAuditWindow, IsAuditList;
    var before := if Get(cursor) == "" then 0 else ParseUint(Get(cursor)).value;
    var l := ParseLimit(limit);
    var from: nat :| BeginsBelow(all, before, from) && IsAuditWindow(a, all, l, from);
    NextFollows(a, l, from, limit, b, all, view);
    AnswersAreAudits(b, view, l, |view| - |all| + from + l);
    PreviousGoesBack(b, l, |view| - |all| + from + l, limit, c, view, later);
    GrownTwice(later, view, all);
    WindowShows(c, later, all, l, from);
    WindowShows(a, all, all, l, from);
    ShowTheSame(a, c, all, l, from);
  }

  // ----- the log itself -----

  /** Any log keeps the audit map in shape, loses no entry of it and stamps what
      it adds above every index before it. */
  lemma AuditsStayOk(s: State, last: nat, log: seq<Entry>)
    requires AuditsOk(s.audits, last) && IndexesGrow(log, last)
    ensures last <= LastIndex(log, last) && AuditsOk(Run(s, log).audits, LastIndex(log, last))
    ensures AuditsGrow(s, Run(s, log)) && Stamped(s.audits, Run(s, log).audits, AuditStamp, last)
  {
    hide Run;
    AuditLogIsTheAppends(s, last, log, Run(s, log));
  }

  /** What is listed later is what was listed before, with only newer entries in
      front of it. */
  lemma LaterListingGrows(
      s: State, last: nat, log: seq<Entry>, wanted: AuditEntry -> bool, base: seq<AuditEntry>, view: seq<AuditEntry>)
    requires AuditsOk(s.audits, last) && IndexesGrow(log, last) && LastIndex(log, last) <= MAX_UINT64
    requires IsListing(base, Kept(s.audits, wanted), NEWEST_FIRST)
    requires IsListing(view, Kept(Run(s, log).audits, wanted), NEWEST_FIRST)
    ensures IsAuditList(base) && Grown(view, base)
  {
    AuditsStayOk(s, last, log);
    GrownListing(s, last, Run(s, log), LastIndex(log, last), wanted, base, view);
  }

  lemma GrownListing(
      s: State, last: nat, t: State, index: nat, wanted: AuditEntry -> bool, base: seq<AuditEntry>, view: seq<AuditEntry>)
    requires AuditsOk(s.audits, last) && AuditsOk(t.audits, index) && last <= index <= MAX_UINT64
    requires AuditsGrow(s, t) && Stamped(s.audits, t.audits, AuditStamp, last)
    requires IsListing(base, Kept(s.audits, wanted), NEWEST_FIRST)
    requires IsListing(view, Kept(t.audits, wanted), NEWEST_FIRST)
    ensures IsAuditList(base) && Grown(view, base)
  {
    hide Kept;
    ListingIsAuditList(s, last, wanted, base);
    ListingIsAuditList(t, index, wanted, view);
    var k := FirstOld(view, last);
    assert view == view[..k] + view[k..];
    forall e ensures e in view[k..] <==> e in base {
      if e in base {
        OldEntryStays(s, t, wanted, e);
        assert e in view && e.id <= last;
      } else if e in view[k..] {
        assert e in view && e.id <= last;
        OldEntryWasThere(s, last, t, wanted, e);
      }
    }
    ListingIsUnique(view[k..], base, NEWEST_FIRST);
  }

  /** Where the entries with IDs up to `last` begin. */
  function FirstOld(view: seq<AuditEntry>, last: nat): (k: nat)
    ensures k <= |view|
    ensures forall i :: 0 <= i < k ==> view[i].id > last
    ensures k < |view| ==> view[k].id <= last
  {
    if view == [] || view[0].id <= last then 0 else 1 + FirstOld(view[1..], last)
  }

  lemma OldEntryStays(s: State, t: State, wanted: AuditEntry -> bool, e: AuditEntry)
    requires AuditsGrow(s, t) && e in Kept(s.audits, wanted)
    ensures e in Kept(t.audits, wanted)
  {
  }

  lemma OldEntryWasThere(s: State, last: nat, t: State, wanted: AuditEntry -> bool, e: AuditEntry)
    requires Stamped(s.audits, t.audits, AuditStamp, last) && e in Kept(t.audits, wanted) && e.id <= last
    ensures e in Kept(s.audits, wanted)
  {
  }

  /** The walk over the real log: from any state in shape on, with any commands
      committed between the requests, a client following nextCursor under one
      filter sees exactly the matching entries of its first request. */
  lemma WalkOverAGrowingLog(
      s: State, last: nat, logs: seq<seq<Entry>>, f: AuditFilter,
      pages: seq<AuditAnswer>, limits: seq<Option<string>>, views: seq<seq<AuditEntry>>)
    requires AuditsOk(s.audits, last) && last <= MAX_UINT64 && IsAuditWalk(pages, limits, views)
    requires |logs| == |views| && logs[0] == []
    requires forall i :: 0 <= i < |logs| ==> IndexesGrow(logs[i], last) && LastIndex(logs[i], last) <= MAX_UINT64
    requires forall i :: 0 <= i < |logs| ==> IsListing(views[i], Kept(Run(s, logs[i]).audits, f.Wanted()), NEWEST_FIRST)
    ensures AllEntries(pages) <= views[0]
    ensures HasNextAudits(pages[|pages| - 1]) <==> AllEntries(pages) != views[0]
    ensures views[0] != [] ==> |pages| <= |views[0]|
    ensures forall e :: e in views[0] <==> exists id :: id in s.audits && f.Matches(s.audits[id]) && s.audits[id] == e
  {
    hide AllEntries, IsAuditPage;
    assert |views| > 0 && Run(s, logs[0]) == s;
    hide Run;
    forall i | 0 <= i < |views| ensures IsAuditList(views[0]) && Grown(views[i], views[0]) {
      LaterListingGrows(s, last, logs[i], f.Wanted(), views[0], views[i]);
    }
    WalkShowsTheFirstView(pages, limits, views, views[0], pages[|pages| - 1]);
  }

  // ----- a client on a live log -----

  /** What is applied after each request; the log stays a log. */
  ghost predicate Arrive(arrivals: seq<seq<Entry>>, last: nat) {
    last <= MAX_UINT64 &&
    (arrivals != [] ==> IndexesGrow(arrivals[0], last) && Arrive(arrivals[1..], LastIndex(arrivals[0], last)))
  }

  lemma ArrivalsExtendTheLog(log: seq<Entry>, last: nat, arrival: seq<Entry>)
    requires IndexesGrow(log, last) && IndexesGrow(arrival, LastIndex(log, last))
    ensures IndexesGrow(log + arrival, last) && LastIndex(log + arrival, last) == LastIndex(arrival, LastIndex(log, last))
  {
    var both := log + arrival;
    assert forall i :: 0 <= i < |log| ==> both[i].index <= LastIndex(log, last);
    forall i, j | 0 <= i < j < |both| ensures both[i].index < both[j].index {
      if i < |log| <= j {
        assert both[j] == arrival[j - |log|];
      }
    }
  }

  /** The first page of a walk, read from the state the client starts at. */
  lemma FirstPageOfTheLog(s: State, last: nat, f: AuditFilter, limit: Option<string>, a: AuditAnswer, base: seq<AuditEntry>)
    requires AuditsOk(s.audits, last) && last <= MAX_UINT64 && IsListing(base, Kept(s.audits, f.Wanted()), NEWEST_FIRST)
    requires IsAuditPage(a, limit, None, base)
    ensures a.Audits? && |a.entries| <= |base| && a.entries == base[..|a.entries|]
    ensures EndsAfter(a, base, |a.entries|)
  {
    hide IsAuditPage, IsListing, AuditsOk;
    ListingIsAuditList(s, last, f.Wanted(), base);
    FirstAuditPage(a, limit, base);
  }

  lemma NothingYet(s: State, last: nat)
    ensures Run(s, []) == s && IndexesGrow([], last)
  {
  }

  lemma NextCursorParses(a: AuditAnswer, base: seq<AuditEntry>, done: nat)
    requires IsAuditList(base) && EndsAfter(a, base, done) && HasNextAudits(a)
    ensures ParseUint(a.page.nextCursor).Some?
  {
    hide FormatUint, ParseUint;
    UintRoundTrip(base[done - 1].id);
  }

  /** What a client knows between its requests: how far the pages it has seen
      reach into the listing it began with. */
  ghost predicate Reached(a: AuditAnswer, base: seq<AuditEntry>, walked: seq<AuditEntry>) {
    && a.Audits? && |walked| <= |base| && walked == base[..|walked|]
    && EndsAfter(a, base, |walked|) && (HasNextAudits(a) <==> |walked| < |base|)
  }

  method FirstRequest(fsm: Fsm, query: AuditQuery, ghost last: nat) returns (a: AuditAnswer, ghost base: seq<AuditEntry>)
    requires AuditsOk(fsm.audits, last) && last <= MAX_UINT64
    requires query.cursor == None && !query.BadTimeRange()
    ensures IsListing(base, Kept(fsm.audits, query.Filter().Wanted()), NEWEST_FIRST) && IsAuditList(base)
    ensures a.Audits? && Reached(a, base, a.entries)
  {
    hide IsAuditPage, IsListing, IsAuditList, EndsAfter, Kept, AuditsOk;
    a := AuditsGet(fsm, query, last);
    base :| IsListing(base, Kept(fsm.audits, query.Filter().Wanted()), NEWEST_FIRST) && IsAuditPage(a, query.limit, None, base);
    FirstPageOfTheLog(fsm.Abs(), last, query.Filter(), query.limit, a, base);
    ListingIsAuditList(fsm.Abs(), last, query.Filter().Wanted(), base);
    NextIsOfferedUntilDone(a, base, |a.entries|);
  }

  /** A later request, after whatever else was applied since the first. */
  method NextRequest(
      fsm: Fsm, query: AuditQuery, before: AuditAnswer, ghost s: State, ghost last: nat, ghost log: seq<Entry>,
      ghost base: seq<AuditEntry>, ghost walked: seq<AuditEntry>) returns (a: AuditAnswer)
    requires AuditsOk(s.audits, last) && IndexesGrow(log, last) && LastIndex(log, last) <= MAX_UINT64 && fsm.Abs() == Run(s, log)
    requires !query.BadTimeRange() && IsAuditList(base)
    requires IsListing(base, Kept(s.audits, query.Filter().Wanted()), NEWEST_FIRST)
    requires Reached(before, base, walked) && HasNextAudits(before)
    ensures a.Audits? && a.entries != [] && Reached(a, base, walked + a.entries)
  {
    hide Grown, IsAuditPage, IsListing, IsAuditList, EndsAfter, Run, IndexesGrow, Kept, AuditsOk;
    var next := query.(cursor := Some(before.page.nextCursor));
    AuditsStayOk(s, last, log);
    NextCursorParses(before, base, |walked|);
    a := AuditsGet(fsm, next, LastIndex(log, last));
    ghost var view :| IsListing(view, Kept(fsm.audits, query.Filter().Wanted()), NEWEST_FIRST)
      && IsAuditPage(a, next.limit, next.cursor, view);
    LaterListingGrows(s, last, log, query.Filter().Wanted(), base, view);
    NextAuditPage(before, query.limit, a, view, base, |walked|);
    NextIsOfferedUntilDone(a, base, |walked| + |a.entries|);
    assert walked + a.entries == base[..|walked| + |a.entries|];
  }

  /** A client follows nextCursor to the end while entries go on being applied
      between its requests. What it has seen is the listing of the moment it
      began. */
  method WalkTheAudits(fsm: Fsm, query: AuditQuery, arrivals: seq<seq<Entry>>, ghost last: nat) returns (walked: seq<AuditEntry>)
    requires AuditsOk(fsm.audits, last) && Arrive(arrivals, last)
    requires query.cursor == None && !query.BadTimeRange()
    modifies fsm
    ensures IsListing(walked, Kept(old(fsm.audits), query.Filter().Wanted()), NEWEST_FIRST)
    ensures forall i, j :: 0 <= i < j < |walked| ==> walked[i].id > walked[j].id
    ensures forall e: AuditEntry :: e in walked <==>
      && (exists id :: id in old(fsm.audits) && old(fsm.audits)[id] == e)
      && (query.targetType == "" || query.targetType == e.targetType)
      && (query.targetId == "" || query.targetId == e.targetId)
      && (query.actorId == "" || query.actorId == e.actorId)
      && (query.from.value == 0 || query.from.value <= e.timestamp)
      && (query.to.value == 0 || e.timestamp <= query.to.value)
  {
    hide IsAuditList, IsListing, EndsAfter, Run, IndexesGrow, Kept, AuditsOk;
    ghost var s := fsm.Abs();
    ghost var log: seq<Entry> := [];
    NothingYet(s, last);
    var a;
    ghost var base;
    a, base := FirstRequest(fsm, query, last);
    walked := a.entries;
    var i := 0;
    while a.page.nextCursor != ""
      invariant 0 <= i <= |arrivals| && Arrive(arrivals[i..], LastIndex(log, last))
      invariant fsm.Abs() == Run(s, log) && IndexesGrow(log, last)
      invariant Reached(a, base, walked)
      decreases |base| - |walked|
    {
      if i < |arrivals| {
        var _ := fsm.Replay(arrivals[i]);
        RunStateFromCut(s, log, arrivals[i]);
        ArrivalsExtendTheLog(log, last, arrivals[i]);
        log := log + arrivals[i];
        assert arrivals[i..][1..] == arrivals[i + 1..];
        i := i + 1;
      }
      a := NextRequest(fsm, query, a, s, last, log, base, walked);
      walked := walked + a.entries;
    }
    assert walked == base;
    QueryListsExactly(s.audits, query, walked);
  }
}
