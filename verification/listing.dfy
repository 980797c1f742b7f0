/**
 The listing operation `getAllUniversities`: paging parameters parsed with
 defaults and range-checked, the requested query helpers combined, as
 Mongoose merges them, bookmarked records sorted first, the matches counted, and one page cut out
 of them together with its pagination metadata.
 */
module Listing {
  import opened Wrappers
  import opened JsText
  import opened Errors
  import opened Universities

  /** The raw query-string fields the listing reads; `None` is an absent field. */
  datatype Filters = Filters(
    page: Option<string>,
    limit: Option<string>,
    active: Option<string>,
    deleted: Option<string>,
    bookmarked: Option<string>,
    country: Option<string>,
    createdAfter: Option<string>)

  datatype Pagination = Pagination(
    total: nat,
    page: int,
    limit: int,
    totalPages: nat,
    hasNextPage: bool,
    hasPrevPage: bool)

  /** The page envelope. */
  datatype Page = Page(universities: seq<University>, pagination: Pagination)

  const DefaultPage: int := 1
  const DefaultLimit: int := 10
  const MaxLimit: int := 100

  // ---------------------------------------------------------------------
  // Paging parameters

  /** `parseInt` of a field; an absent field parses to `NaN`. */
  function Parsed(raw: Option<string>): Option<int> {
    if raw.Some? then ParseInt(raw.value) else None
  }

  /** `parseInt(raw) || fallback`: `NaN` and zero are falsy and give way to
      the fallback; every other number, negative ones included, is kept. */
  function NumberOr(raw: Option<string>, fallback: int): (n: int)
    requires fallback != 0
    ensures n != 0
    ensures Parsed(raw).None? || Parsed(raw) == Some(0) ==> n == fallback
    ensures Parsed(raw).Some? && Parsed(raw).value != 0 ==> n == Parsed(raw).value
  {
    match Parsed(raw)
    case Some(v) => if v != 0 then v else fallback
    case None => fallback
  }

  /** The requested page number. It fails the range check exactly when the
      field parses to a negative number: a missing, non-numeric or zero page
      is page 1. */
  function PageNumber(f: Filters): (page: int)
    ensures page < 1 <==> Parsed(f.page).Some? && Parsed(f.page).value < 0
    ensures Parsed(f.page).None? || Parsed(f.page) == Some(0) ==> page == DefaultPage
  {
    NumberOr(f.page, DefaultPage)
  }

  predicate LimitInRange(limit: int) {
    1 <= limit <= MaxLimit
  }

  /** The requested page size. It fails the range check exactly when the
      field parses to a negative number or to one above 100: a missing,
      non-numeric or zero limit is 10. */
  function LimitNumber(f: Filters): (limit: int)
    ensures !LimitInRange(limit) <==>
              Parsed(f.limit).Some? && (Parsed(f.limit).value < 0 || Parsed(f.limit).value > MaxLimit)
    ensures Parsed(f.limit).None? || Parsed(f.limit) == Some(0) ==> limit == DefaultLimit
  {
    NumberOr(f.limit, DefaultLimit)
  }

  // ---------------------------------------------------------------------
  // Filter composition

  /** A field that JavaScript reads as true in an `if`: present and non-empty. */
  predicate Truthy(raw: Option<string>) {
    raw.Some? && raw.value != ""
  }

  /** A tri-state flag filter: `"true"`, `"false"`, or anything else, which
      adds no restriction. */
  datatype TriState = Any | Yes | No

  function Tri(raw: Option<string>): TriState {
    if raw == Some("true") then Yes
    else if raw == Some("false") then No
    else Any
  }

  predicate Holds(t: TriState, yes: bool, no: bool) {
    match t
    case Any => true
    case Yes => yes
    case No => no
  }

  /** The composed query: which helpers were chained, with their arguments. */
  datatype Query = Query(
    active: TriState,
    deleted: TriState,
    bookmarked: TriState,
    country: Option<string>,
    createdAfter: Option<Time>)

  /** Builds the query from the raw fields, in the order the service chains
      the helpers. `byCountry` compiles the country text as a regular
      expression, so text that is not a valid pattern throws a SyntaxError,
      which carries no status code and becomes 500; this happens before the
      date is looked at. An unparseable `createdAfter` is 400. Pattern
      checking and date parsing are parameters. */
  function Compile(f: Filters, parseDate: string -> Option<Time>, isPattern: string -> bool)
    : (r: Result<Query, ServiceError>)
    ensures r.Failure? <==>
              || (Truthy(f.country) && !isPattern(f.country.value))
              || (Truthy(f.createdAfter) && parseDate(f.createdAfter.value).None?)
    ensures Truthy(f.country) && !isPattern(f.country.value) ==>
              r == Failure(ServiceError(500, InvalidPattern))
    ensures r.Failure? && r.error != ServiceError(500, InvalidPattern) ==>
              r.error == ServiceError(400, InvalidDate)
  {
    var since :=
      if Truthy(f.createdAfter) then parseDate(f.createdAfter.value) else None;
    if Truthy(f.country) && !isPattern(f.country.value) then Failure(ServiceError(500, InvalidPattern))
    else if Truthy(f.createdAfter) && since.None? then Failure(ServiceError(400, InvalidDate))
    else
      Success(Query(
        Tri(f.active),
        Tri(f.deleted),
        Tri(f.bookmarked),
        if Truthy(f.country) then f.country else None,
        since))
  }

  /** The conditions the flag helpers put on `isActive` and `deletedAt`.
      Mongoose's `where` merges condition objects key by key, and a key whose
      condition is `null` is overwritten by a later one: `active()` followed
      by `deleted()` leaves `{isActive: true, deletedAt: {$ne: null}}`, which
      keeps the active records that are soft-deleted. Every other pair of
      flag helpers is a plain conjunction. */
  predicate FlagsHold(q: Query, u: University) {
    if q.active == Yes && q.deleted == Yes then u.isActive && Deleted(u)
    else Holds(q.active, Active(u), ActiveFalse(u)) && Holds(q.deleted, Deleted(u), DeletedFalse(u))
  }

  /** What the chained helpers keep. */
  predicate Matches(q: Query, u: University) {
    && FlagsHold(q, u)
    && Holds(q.bookmarked, Bookmarked(u), BookmarkedFalse(u))
    && (q.country.Some? ==> ByCountry(u, q.country.value))
    && (q.createdAfter.Some? ==> CreatedAfter(u, q.createdAfter.value))
  }

  /** What a compiled query keeps, read off the raw fields: each flag field
      restricts only when it is exactly "true" or "false", the country only
      when non-empty, the date only when given. `active=true` asks for a
      missing `deletedAt` only when `deleted=true` does not overwrite it. */
  lemma {:induction false} MatchesRequested(f: Filters, parseDate: string -> Option<Time>,
                                            isPattern: string -> bool, u: University)
    requires Compile(f, parseDate, isPattern).Success?
    ensures Matches(Compile(f, parseDate, isPattern).value, u) <==>
      && (f.active == Some("true") ==> u.isActive)
      && (f.active == Some("true") && f.deleted != Some("true") ==> u.deletedAt.None?)
      && (f.active == Some("false") ==> !Active(u))
      && (f.deleted == Some("true") ==> u.deletedAt.Some?)
      && (f.deleted == Some("false") ==> u.deletedAt.None?)
      && (f.bookmarked == Some("true") ==> u.isBookmark)
      && (f.bookmarked == Some("false") ==> !u.isBookmark)
      && (Truthy(f.country) ==> ContainsIgnoringCase(u.country, f.country.value))
      && (Truthy(f.createdAfter) ==> u.created >= parseDate(f.createdAfter.value).value)
  {
    assert ActiveFalse(u) <==> !Active(u);
    assert DeletedFalse(u) <==> !Deleted(u);
    assert BookmarkedFalse(u) <==> !Bookmarked(u);
  }

  /** Asking for active and deleted records lists the records that are both
      active and soft-deleted, which an update can produce. */
  lemma ActiveAndDeletedListsReactivated(u: University)
    requires u.isActive && u.deletedAt.Some?
    ensures Matches(Query(Yes, Yes, Any, None, None), u)
    ensures !Active(u) && Deleted(u)
  {
  }

  // ---------------------------------------------------------------------
  // Sequences: selection, ordering, slicing

  /** The elements of `s` that satisfy `p`, in their original order. */
  function Filter<T(!new)>(s: seq<T>, p: T -> bool): (r: seq<T>)
    ensures |r| <= |s|
    ensures forall x :: x in r <==> x in s && p(x)
  {
    if s == [] then []
    else (if p(s[0]) then [s[0]] else []) + Filter(s[1..], p)
  }

  /** Filtering keeps every copy of a kept element and drops every copy of
      the others. */
  lemma {:induction false} FilterMultiplicity<T(!new)>(s: seq<T>, p: T -> bool)
    ensures forall x :: multiset(Filter(s, p))[x] == if p(x) then multiset(s)[x] else 0
    decreases |s|
  {
    if s != [] {
      FilterMultiplicity(s[1..], p);
      assert s == [s[0]] + s[1..];
    }
  }

  /** Filtering keeps the relative order: two kept elements appear in the
      result in the order they had in `s`. */
  lemma {:induction false} FilterKeepsOrder<T(!new)>(s: seq<T>, p: T -> bool, i: int, j: int)
    requires 0 <= i < j < |s| && p(s[i]) && p(s[j])
    ensures exists k, l :: 0 <= k < l < |Filter(s, p)| && Filter(s, p)[k] == s[i] && Filter(s, p)[l] == s[j]
  {
    var front, back := s[..j], s[j..];
    assert s == front + back;
    FilterConcat(front, back, p);
    assert s[i] in front;
    var fa := Filter(front, p);
    var k :| 0 <= k < |fa| && fa[k] == s[i];
    assert back == [s[j]] + back[1..];
    assert Filter(back, p)[0] == s[j];
    assert Filter(s, p)[k] == s[i] && Filter(s, p)[|fa|] == s[j];
  }

  lemma {:induction false} FilterConcat<T(!new)>(a: seq<T>, b: seq<T>, p: T -> bool)
    ensures Filter(a + b, p) == Filter(a, p) + Filter(b, p)
    decreases |a|
  {
    if a != [] {
      assert (a + b)[1..] == a[1..] + b;
      FilterConcat(a[1..], b, p);
    } else {
      assert a + b == b;
    }
  }

  lemma {:induction false} FilterAll<T(!new)>(s: seq<T>, p: T -> bool)
    requires forall i :: 0 <= i < |s| ==> p(s[i])
    ensures Filter(s, p) == s
    decreases |s|
  {
    if s != [] {
      FilterAll(s[1..], p);
    }
  }

  lemma {:induction false} FilterNone<T(!new)>(s: seq<T>, p: T -> bool)
    requires forall i :: 0 <= i < |s| ==> !p(s[i])
    ensures Filter(s, p) == []
    decreases |s|
  {
    if s != [] {
      FilterNone(s[1..], p);
    }
  }

  /** A predicate and its complement split a sequence into two parts that
      together hold every element exactly once. */
  lemma {:induction false} FilterSplit<T(!new)>(s: seq<T>, p: T -> bool, q: T -> bool)
    requires forall x :: q(x) <==> !p(x)
    ensures multiset(Filter(s, p)) + multiset(Filter(s, q)) == multiset(s)
    ensures |Filter(s, p)| + |Filter(s, q)| == |s|
    decreases |s|
  {
    if s != [] {
      FilterSplit(s[1..], p, q);
      assert s == [s[0]] + s[1..];
    }
  }

  /** Each `true`/`false` pair of flag filters splits the collection: every
      record is listed under exactly one of the two values. */
  lemma {:induction false} FlagFiltersPartition(store: seq<University>)
    ensures |Filter(store, Active)| + |Filter(store, ActiveFalse)| == |store|
    ensures |Filter(store, Deleted)| + |Filter(store, DeletedFalse)| == |store|
    ensures |Filter(store, Bookmarked)| + |Filter(store, BookmarkedFalse)| == |store|
  {
    FilterSplit(store, Active, ActiveFalse);
    FilterSplit(store, Deleted, DeletedFalse);
    FilterSplit(store, Bookmarked, BookmarkedFalse);
  }

  /** A stricter test keeps no more elements. */
  lemma {:induction false} FilterMonotone<T(!new)>(s: seq<T>, p: T -> bool, q: T -> bool)
    requires forall x :: p(x) ==> q(x)
    ensures |Filter(s, p)| <= |Filter(s, q)|
    decreases |s|
  {
    if s != [] {
      FilterMonotone(s[1..], p, q);
    }
  }

  /** The query as a test on one record. */
  function Matcher(q: Query): University -> bool {
    u => Matches(q, u)
  }

  /** The records of the collection the query keeps. */
  function Select(store: seq<University>, q: Query): (r: seq<University>)
    ensures forall u :: u in r <==> u in store && Matches(q, u)
    ensures forall u :: multiset(r)[u] == if Matches(q, u) then multiset(store)[u] else 0
  {
    FilterMultiplicity(store, Matcher(q));
    Filter(store, Matcher(q))
  }

  /** The selection keeps the collection's natural order. */
  lemma {:induction false} SelectKeepsOrder(store: seq<University>, q: Query, i: int, j: int)
    requires 0 <= i < j < |store| && Matches(q, store[i]) && Matches(q, store[j])
    ensures exists k, l :: 0 <= k < l < |Select(store, q)| && Select(store, q)[k] == store[i]
                                                            && Select(store, q)[l] == store[j]
  {
    FilterKeepsOrder(store, Matcher(q), i, j);
    var r := Filter(store, Matcher(q));
    var k, l :| 0 <= k < l < |r| && r[k] == store[i] && r[l] == store[j];
    assert Select(store, q) == r;
  }

  /** `createdAfter` is inclusive and monotone: a later date keeps no more
      records than an earlier one, and every record it keeps the earlier date
      keeps too. */
  lemma {:induction false} LaterDateKeepsFewer(store: seq<University>, q: Query, d1: Time, d2: Time)
    requires d1 <= d2
    ensures forall u :: u in Select(store, q.(createdAfter := Some(d2))) ==>
                          u in Select(store, q.(createdAfter := Some(d1)))
    ensures |Select(store, q.(createdAfter := Some(d2)))| <= |Select(store, q.(createdAfter := Some(d1)))|
  {
    var later, earlier := q.(createdAfter := Some(d2)), q.(createdAfter := Some(d1));
    FilterMonotone(store, Matcher(later), Matcher(earlier));
    assert Select(store, later) == Filter(store, Matcher(later));
    assert Select(store, earlier) == Filter(store, Matcher(earlier));
  }

  /** `sort({ isBookmark: -1 })`: bookmarked records first. Ties keep the
      collection's natural order: the bookmarked records, and the others, each
      appear in the order they had. */
  function BookmarkedFirst(s: seq<University>): (r: seq<University>)
    ensures |r| == |s| && multiset(r) == multiset(s)
    ensures forall u :: u in r <==> u in s
    ensures forall i, j :: 0 <= i < j < |r| && r[j].isBookmark ==> r[i].isBookmark
    ensures Filter(r, Bookmarked) == Filter(s, Bookmarked)
    ensures Filter(r, BookmarkedFalse) == Filter(s, BookmarkedFalse)
  {
    BookmarkedFirstIsPermutation(s);
    BookmarkedFirstIsOrdered(s);
    BookmarkedFirstIsStable(s);
    Filter(s, Bookmarked) + Filter(s, BookmarkedFalse)
  }

  lemma BookmarkedFirstIsPermutation(s: seq<University>)
    ensures var r := Filter(s, Bookmarked) + Filter(s, BookmarkedFalse);
            |r| == |s| && multiset(r) == multiset(s) && (forall u :: u in r <==> u in s)
  {
    var r := Filter(s, Bookmarked) + Filter(s, BookmarkedFalse);
    FilterSplit(s, Bookmarked, BookmarkedFalse);
    assert multiset(r) == multiset(s);
    forall u ensures u in r <==> u in s {
      assert u in r <==> u in multiset(r);
      assert u in s <==> u in multiset(s);
    }
  }

  lemma BookmarkedFirstIsOrdered(s: seq<University>)
    ensures var r := Filter(s, Bookmarked) + Filter(s, BookmarkedFalse);
            forall i, j :: 0 <= i < j < |r| && r[j].isBookmark ==> r[i].isBookmark
  {
    var marked := Filter(s, Bookmarked);
    var unmarked := Filter(s, BookmarkedFalse);
    var r := marked + unmarked;
    forall k | 0 <= k < |r| ensures r[k].isBookmark <==> k < |marked| {
      if k < |marked| {
        assert r[k] == marked[k];
        assert marked[k] in marked;
      } else {
        assert r[k] == unmarked[k - |marked|];
        assert unmarked[k - |marked|] in unmarked;
      }
    }
  }

  lemma BookmarkedFirstIsStable(s: seq<University>)
    ensures var r := Filter(s, Bookmarked) + Filter(s, BookmarkedFalse);
            && Filter(r, Bookmarked) == Filter(s, Bookmarked)
            && Filter(r, BookmarkedFalse) == Filter(s, BookmarkedFalse)
  {
    var marked := Filter(s, Bookmarked);
    var unmarked := Filter(s, BookmarkedFalse);
    FilterConcat(marked, unmarked, Bookmarked);
    FilterConcat(marked, unmarked, BookmarkedFalse);
    forall i | 0 <= i < |marked| ensures Bookmarked(marked[i]) && !BookmarkedFalse(marked[i]) {
      assert marked[i] in marked;
    }
    forall i | 0 <= i < |unmarked| ensures !Bookmarked(unmarked[i]) && BookmarkedFalse(unmarked[i]) {
      assert unmarked[i] in unmarked;
    }
    FilterAll(marked, Bookmarked);
    FilterNone(unmarked, Bookmarked);
    FilterNone(marked, BookmarkedFalse);
    FilterAll(unmarked, BookmarkedFalse);
    assert marked + [] == marked;
    assert [] + unmarked == unmarked;
  }

  /** `skip(skip).limit(limit)`: at most `limit` elements starting at `skip`. */
  function Window<T>(s: seq<T>, skip: nat, limit: nat): (r: seq<T>)
    ensures |r| == if skip >= |s| then 0 else if |s| - skip < limit then |s| - skip else limit
    ensures forall i :: 0 <= i < |r| ==> skip + i < |s| && r[i] == s[skip + i]
    ensures forall x :: x in r ==> x in s
  {
    if skip >= |s| then []
    else if |s| - skip < limit then s[skip..]
    else s[skip..skip + limit]
  }

  /** `Math.ceil(n / d)` for a positive divisor. */
  function CeilDiv(n: nat, d: nat): (q: nat)
    requires d > 0
    ensures q * d >= n
    ensures q == 0 || (q - 1) * d < n
  {
    var q := (n + d - 1) / d;
    assert q * d + (n + d - 1) % d == n + d - 1;
    q
  }

  // ---------------------------------------------------------------------
  // Counting and paging

  /** A page cut out of `hits` for `page` and `limit`, with its metadata. */
  ghost predicate PageOf(hits: seq<University>, page: int, limit: int, p: Page)
    requires page >= 1 && limit >= 1
  {
    var pg := p.pagination;
    var total := |hits|;
    && pg.total == total
    && pg.page == page
    && pg.limit == limit
    && pg.totalPages == CeilDiv(total, limit)
    && |p.universities| == (if (page - 1) * limit >= total then 0
                            else if total - (page - 1) * limit < limit then total - (page - 1) * limit
                            else limit)
    && (forall i :: 0 <= i < |p.universities| ==>
          (page - 1) * limit + i < total && p.universities[i] == hits[(page - 1) * limit + i])
    && (total == 0 ==> p.universities == [])
    && (total > 0 ==> |p.universities| > 0)
    && pg.hasNextPage == (page * limit < total)
    && (total > 0 ==> (pg.hasNextPage <==> page < pg.totalPages))
    && pg.hasPrevPage == (page > 1)
  }

  /** Counts the matches, rejects a page beyond the last one when there are
      matches, and otherwise returns the page. */
  function Assemble(hits: seq<University>, page: int, limit: int): (r: Result<Page, ServiceError>)
    requires page >= 1 && LimitInRange(limit)
    ensures r.Failure? <==> |hits| > 0 && page > CeilDiv(|hits|, limit)
    ensures r.Failure? ==> r.error == ServiceError(400, PageOutOfRange(page, CeilDiv(|hits|, limit)))
    ensures r.Success? ==> PageOf(hits, page, limit, r.value)
    ensures r.Success? ==> forall u :: u in r.value.universities ==> u in hits
  {
    var total := |hits|;
    var totalPages := CeilDiv(total, limit);
    if page > totalPages && total > 0 then
      Failure(ServiceError(400, PageOutOfRange(page, totalPages)))
    else
      PageArithmetic(total, page, limit);
      Success(Page(
        Window(hits, (page - 1) * limit, limit),
        Pagination(total, page, limit, totalPages, page * limit < total, page > 1)))
  }

  /** The arithmetic behind a page within range: it starts inside the matches,
      and there is a next page exactly when it is not the last. */
  lemma PageArithmetic(total: nat, page: int, limit: int)
    requires 1 <= page && 1 <= limit
    requires total > 0 ==> page <= CeilDiv(total, limit)
    ensures total > 0 ==> (page - 1) * limit < total
    ensures total > 0 ==> (page * limit < total <==> page < CeilDiv(total, limit))
  {
    if total > 0 {
      var t := CeilDiv(total, limit);
      assert (page - 1) * limit <= (t - 1) * limit;
      if page < t {
        assert page * limit <= (t - 1) * limit;
      } else {
        assert page * limit >= t * limit;
      }
    }
  }

  // ---------------------------------------------------------------------
  // The listing

  /** The listing: the page check, then the limit check, then the query (an
      invalid country pattern fails with 500, then a bad date with 400), and
      only then the count and the page. */
  function List(store: seq<University>, f: Filters, parseDate: string -> Option<Time>,
                isPattern: string -> bool): (r: Result<Page, ServiceError>)
    ensures r.Failure? ==> r.error.status == 400 || r.error == ServiceError(500, InvalidPattern)
    ensures PageNumber(f) < 1 ==> r == Failure(ServiceError(400, PageTooSmall))
    ensures PageNumber(f) >= 1 && !LimitInRange(LimitNumber(f)) ==>
              r == Failure(ServiceError(400, LimitOutOfRange))
    ensures PageNumber(f) >= 1 && LimitInRange(LimitNumber(f)) && Truthy(f.country) && !isPattern(f.country.value) ==>
              r == Failure(ServiceError(500, InvalidPattern))
    ensures PageNumber(f) >= 1 && LimitInRange(LimitNumber(f)) && !(Truthy(f.country) && !isPattern(f.country.value))
            && Truthy(f.createdAfter) && parseDate(f.createdAfter.value).None? ==>
              r == Failure(ServiceError(400, InvalidDate))
    ensures r.Success? ==>
      && Compile(f, parseDate, isPattern).Success?
      && PageNumber(f) >= 1 && LimitInRange(LimitNumber(f))
      && r.value.pagination.total == |Select(store, Compile(f, parseDate, isPattern).value)|
      && PageOf(BookmarkedFirst(Select(store, Compile(f, parseDate, isPattern).value)), PageNumber(f), LimitNumber(f), r.value)
      && (forall u :: u in r.value.universities ==> u in store && Matches(Compile(f, parseDate, isPattern).value, u))
    ensures PageNumber(f) >= 1 && LimitInRange(LimitNumber(f)) && Compile(f, parseDate, isPattern).Success? ==>
              r == Assemble(BookmarkedFirst(Select(store, Compile(f, parseDate, isPattern).value)), PageNumber(f), LimitNumber(f))
  {
    var page := PageNumber(f);
    var limit := LimitNumber(f);
    if page < 1 then Failure(ServiceError(400, PageTooSmall))
    else if !LimitInRange(limit) then Failure(ServiceError(400, LimitOutOfRange))
    else
      match Compile(f, parseDate, isPattern)
      case Failure(e) => Failure(e)
      case Success(q) =>
        var hits := BookmarkedFirst(Select(store, q));
        Assemble(hits, page, limit)
  }

  /** The page check fires only when there are matches: with none, every page
      number that passes the paging checks gives an empty page. */
  lemma {:induction false} NoMatchesAnyPage(store: seq<University>, f: Filters,
                                            parseDate: string -> Option<Time>, isPattern: string -> bool)
    requires PageNumber(f) >= 1 && LimitInRange(LimitNumber(f))
    requires Compile(f, parseDate, isPattern).Success?
    requires Select(store, Compile(f, parseDate, isPattern).value) == []
    ensures List(store, f, parseDate, isPattern).Success?
    ensures List(store, f, parseDate, isPattern).value.universities == []
    ensures List(store, f, parseDate, isPattern).value.pagination.totalPages == 0
  {
    var q := Compile(f, parseDate, isPattern).value;
    var limit := LimitNumber(f);
    var hits := BookmarkedFirst(Select(store, q));
    assert hits == [];
    AssembleNothing(PageNumber(f), limit);
  }

  lemma AssembleNothing(page: int, limit: int)
    requires page >= 1 && LimitInRange(limit)
    ensures Assemble([], page, limit).Success?
    ensures Assemble([], page, limit).value.universities == []
    ensures Assemble([], page, limit).value.pagination.totalPages == 0
  {
  }

  /** With matches, a page beyond the last fails and names both numbers. */
  lemma {:induction false} PageBeyondLast(store: seq<University>, f: Filters,
                                          parseDate: string -> Option<Time>, isPattern: string -> bool)
    requires Compile(f, parseDate, isPattern).Success?
    ensures PageNumber(f) >= 1 && LimitInRange(LimitNumber(f)) ==>
              var total := |Select(store, Compile(f, parseDate, isPattern).value)|;
              var pages := CeilDiv(total, LimitNumber(f));
              total > 0 && PageNumber(f) > pages ==>
                List(store, f, parseDate, isPattern) == Failure(ServiceError(400, PageOutOfRange(PageNumber(f), pages)))
  {
  }
}
