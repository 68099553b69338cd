/** Offset pages (backend/internal/api/pagination.go): following the cursors
    visits every item once. */
module OffsetPages {
  import opened Records
  import opened Decimal

  const DEFAULT_PAGE_LIMIT := 25
  const MAX_PAGE_LIMIT := 100

  /** A cursor is "" when nothing remains that way. */
  datatype Page = Page(limit: int, total: nat, start: nat, end: nat, prevCursor: string, nextCursor: string)

  datatype Answer<+T> = InvalidCursor | Served(items: seq<T>, page: Option<Page>)

  /** url.Values.Get: an absent parameter reads as "". */
  function Get(param: Option<string>): string {
    if param.Some? then param.value else ""
  }

  /** Whatever the query says, the limit is one to a hundred. */
  function ParseLimit(param: Option<string>): (limit: int)
    ensures 1 <= limit <= MAX_PAGE_LIMIT
  {
    match Atoi(Get(param))
    case None => DEFAULT_PAGE_LIMIT
    case Some(n) => if n < 1 || n > MAX_PAGE_LIMIT then DEFAULT_PAGE_LIMIT else n
  }

  lemma LimitIsHonouredExactlyInRange(n: int)
    ensures ParseLimit(Some(Itoa(n))) == if 1 <= n <= 100 then n else 25
    ensures ParseLimit(None) == 25
  {
    hide Itoa;
    IntRoundTrip(n);
  }

  /** Rows from..to of a listing, and where the pages beside them begin. */
  ghost predicate IsWindow<T>(a: Answer<T>, items: seq<T>, limit: int, from: nat) {
    && a.Served? && a.page.Some? && from <= |items|
    && var p := a.page.value;
       var to := from + |a.items|;
       && to <= |items| && a.items == items[from..to]
       && |a.items| <= limit && (|a.items| < limit ==> to == |items|)
       && p.limit == limit && p.total == |items|
       && (if |a.items| == 0 then p.start == 0 && p.end == 0 else p.start == from + 1 && p.end == to)
       && p.nextCursor == (if to == |items| then "" else Itoa(to))
       && p.prevCursor == (if from == 0 then "" else Itoa(if from < limit then 0 else from - limit))
  }

  /** What paginate promises: everything when no parameter is given, a refusal
      when the cursor is no row of the list, and otherwise the rows at the
      cursor. */
  ghost predicate IsAnswer<T>(a: Answer<T>, limitParam: Option<string>, cursorParam: Option<string>, items: seq<T>) {
    if limitParam.None? && cursorParam.None? then a == Served(items, None)
    else
      var offset := if Get(cursorParam) == "" then Some(0) else Atoi(Get(cursorParam));
      if offset.Some? && 0 <= offset.value <= |items|
      then IsWindow(a, items, ParseLimit(limitParam), offset.value)
      else a == InvalidCursor
  }

  /** No slice is so long that a limit added to its length overflows. */
  predicate FitsMemory<T>(items: seq<T>) {
    |items| <= MAX_INT64 - MAX_PAGE_LIMIT
  }

  method Paginate<T>(limitParam: Option<string>, cursorParam: Option<string>, items: seq<T>) returns (a: Answer<T>)
    requires FitsMemory(items)
    ensures IsAnswer(a, limitParam, cursorParam, items)
  {
    hide Atoi, Itoa;
    if limitParam.None? && cursorParam.None? {
      return Served(items, None);
    }
    var limit := ParseLimit(limitParam);
    var offset := 0;
    var cursor := Get(cursorParam);
    if cursor != "" {
      var parsed := Atoi(cursor);
      if parsed.None? || parsed.value < 0 || parsed.value > |items| {
        return InvalidCursor;
      }
      offset := parsed.value;
    }
    var end := if offset + limit < |items| then offset + limit else |items|;
    var page := Page(limit, |items|, 0, 0, "", "");
    if end > offset {
      page := page.(start := offset + 1, end := end);
    }
    if offset > 0 {
      var previous := if offset - limit > 0 then offset - limit else 0;
      page := page.(prevCursor := Itoa(previous));
    }
    if end < |items| {
      page := page.(nextCursor := Itoa(end));
    }
    return Served(items[offset..end], Some(page));
  }

  // ----- walking the list -----

  ghost predicate HasNext<T>(a: Answer<T>) {
    a.Served? && a.page.Some? && a.page.value.nextCursor != ""
  }

  ghost predicate IsNextPage<T>(before: Answer<T>, limit: Option<string>, a: Answer<T>, items: seq<T>) {
    HasNext(before) && IsAnswer(a, limit, Some(before.page.value.nextCursor), items)
  }

  /** A client that starts at the first page and follows nextCursor for as long
      as there is one, with any limit on each request. */
  ghost predicate IsWalk<T>(pages: seq<Answer<T>>, limits: seq<Option<string>>, first: Option<string>, items: seq<T>) {
    && |pages| == |limits| > 0
    && Get(first) == "" && (limits[0].Some? || first.Some?) && IsAnswer(pages[0], limits[0], first, items)
    && forall i :: 0 < i < |pages| ==> IsNextPage(pages[i - 1], limits[i], pages[i], items)
  }

  function AllItems<T>(pages: seq<Answer<T>>): seq<T> {
    if pages == [] then []
    else
      var last := pages[|pages| - 1];
      AllItems(pages[..|pages| - 1]) + if last.Served? then last.items else []
  }

  lemma NextIsOfferedBeforeTheEnd<T>(a: Answer<T>, items: seq<T>, limit: int, from: nat)
    requires IsWindow(a, items, limit, from)
    ensures HasNext(a) <==> from + |a.items| < |items|
    ensures a.Served? && a.page.Some? && from + |a.items| <= |items| && a.items == items[from..from + |a.items|]
    ensures from < |items| && limit >= 1 ==> a.items != []
  {
  }

  lemma NextPageBeginsAtTheEnd<T>(
      before: Answer<T>, beforeLimit: int, from: nat, limit: Option<string>, a: Answer<T>, items: seq<T>)
    requires FitsMemory(items) && IsWindow(before, items, beforeLimit, from) && IsNextPage(before, limit, a, items)
    ensures a.Served? && IsWindow(a, items, ParseLimit(limit), from + |before.items|)
  {
    hide Atoi, Itoa;
    IntRoundTrip(from + |before.items|);
  }

  lemma FirstPageBeginsAtZero<T>(limit: Option<string>, first: Option<string>, a: Answer<T>, items: seq<T>)
    requires Get(first) == "" && (limit.Some? || first.Some?) && IsAnswer(a, limit, first, items)
    ensures a.Served? && IsWindow(a, items, ParseLimit(limit), 0)
  {
  }

  /** However the limits vary, no request of the walk is refused, the pages so
      far are the beginning of the list with nothing twice or left out, and the
      walk is over exactly when they are the whole list. It is over after at
      most one request per item. */
  lemma {:induction false} WalkVisitsEachItemOnce<T>(
      pages: seq<Answer<T>>, limits: seq<Option<string>>, first: Option<string>, items: seq<T>, last: Answer<T>)
    requires FitsMemory(items) && IsWalk(pages, limits, first, items) && last == pages[|pages| - 1]
    ensures last.Served? && last.page.Some? && |last.items| <= |AllItems(pages)|
    ensures IsWindow(last, items, ParseLimit(limits[|pages| - 1]), |AllItems(pages)| - |last.items|)
    ensures AllItems(pages) <= items
    ensures HasNext(last) <==> AllItems(pages) != items
    ensures |pages| <= |items| || |pages| == 1
    ensures HasNext(last) ==> |pages| <= |AllItems(pages)|
  {
    hide Atoi, Itoa, ParseLimit, IsAnswer, IsWindow, HasNext;
    var n := |pages| - 1;
    if n == 0 {
      FirstPageBeginsAtZero(limits[0], first, last, items);
    } else {
      var before := pages[n - 1];
      WalkVisitsEachItemOnce(pages[..n], limits[..n], first, items, before);
      NextPageBeginsAtTheEnd(before, ParseLimit(limits[n - 1]), |AllItems(pages[..n])| - |before.items|, limits[n], last, items);
    }
    assert AllItems(pages) == AllItems(pages[..n]) + last.items;
    NextIsOfferedBeforeTheEnd(last, items, ParseLimit(limits[n]), |AllItems(pages)| - |last.items|);
  }

  /** Every cursor a page gives out is accepted again on the same list, whatever
      the limit of the next request. */
  lemma IssuedCursorsAreAccepted<T>(
      limitParam: Option<string>, cursorParam: Option<string>, items: seq<T>, a: Answer<T>,
      nextLimit: Option<string>, cursor: string, b: Answer<T>)
    requires FitsMemory(items) && IsAnswer(a, limitParam, cursorParam, items) && a.Served? && a.page.Some?
    requires cursor in [a.page.value.prevCursor, a.page.value.nextCursor]
    requires IsAnswer(b, nextLimit, Some(cursor), items)
    ensures b.Served? && b.page.Some?
  {
    hide Atoi, Itoa, ParseLimit;
    forall n: nat | n <= |items| ensures Atoi(Itoa(n)) == Some(n) {
      IntRoundTrip(n);
    }
  }

  /** With one limit, going on and back again shows the same page. */
  lemma NextThenPrevious<T>(
      limitParam: Option<string>, cursorParam: Option<string>, items: seq<T>,
      a: Answer<T>, b: Answer<T>, c: Answer<T>)
    requires FitsMemory(items) && IsAnswer(a, limitParam, cursorParam, items) && IsNextPage(a, limitParam, b, items)
    requires b.Served? ==> b.page.Some? && IsAnswer(c, limitParam, Some(b.page.value.prevCursor), items)
    ensures b.Served? && c.Served? && c.items == a.items
  {
    hide Atoi, Itoa, ParseLimit;
    forall n: nat | n <= |items| ensures Atoi(Itoa(n)) == Some(n) && Itoa(n) != "" {
      IntRoundTrip(n);
    }
  }

  /** A client that asks for page after page with one limit gets the whole list,
      in order, and stops. */
  method WalkTheList<T>(limit: string, items: seq<T>) returns (walked: seq<T>)
    requires FitsMemory(items)
    ensures walked == items
  {
    hide Atoi, Itoa, ParseLimit, IsAnswer, IsWindow;
    var a := Paginate(Some(limit), Some(""), items);
    FirstPageBeginsAtZero(Some(limit), Some(""), a, items);
    NextIsOfferedBeforeTheEnd(a, items, ParseLimit(Some(limit)), 0);
    walked := a.items;
    while a.page.value.nextCursor != ""
      invariant a.Served? && a.page.Some? && |a.items| <= |walked| <= |items|
      invariant walked == items[..|walked|]
      invariant IsWindow(a, items, ParseLimit(Some(limit)), |walked| - |a.items|)
      invariant a.page.value.nextCursor != "" <==> |walked| < |items|
      decreases |items| - |walked|
    {
      var before := a;
      a := Paginate(Some(limit), Some(before.page.value.nextCursor), items);
      assert IsNextPage(before, Some(limit), a, items);
      NextPageBeginsAtTheEnd(before, ParseLimit(Some(limit)), |walked| - |before.items|, Some(limit), a, items);
      NextIsOfferedBeforeTheEnd(a, items, ParseLimit(Some(limit)), |walked|);
      walked := walked + a.items;
    }
  }
}
