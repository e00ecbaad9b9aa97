/** The server-paged table (src/components/DataTable.tsx): sorting, paging, search, the request
    URL it builds and how a response updates it. Rows are opaque values of type `R`. */
module DataTable {
  import opened Base
  import opened Text
  import FormEncoding
  import Http

  /** Rows per page, sent as `limit`. */
  const PageSize := 50

  datatype SortOrder = Asc | Desc

  datatype TableState<R> = TableState(
    data: seq<R>,
    page: int,
    totalPages: int,
    total: int,
    search: string,
    sortBy: string,
    sortOrder: SortOrder)

  /** The state a table starts in: page 1 of 1, nothing loaded, unsorted, descending. */
  function Initial<R>(): TableState<R> {
    TableState([], 1, 1, 0, "", "", Desc)
  }

  function Flip(o: SortOrder): SortOrder {
    if o == Asc then Desc else Asc
  }

  /** `handleSort`: the sorted column toggles its order, another column becomes the sorted one in
      ascending order; either way the table returns to page 1. */
  function HandleSort<R>(s: TableState<R>, column: string): (r: TableState<R>)
    ensures r.page == 1 && r.sortBy == column
    ensures s.sortBy == column ==> r.sortOrder != s.sortOrder
    ensures s.sortBy != column ==> r.sortOrder == Asc
    ensures r == s.(page := 1, sortBy := column, sortOrder := r.sortOrder)
  {
    if s.sortBy == column then s.(sortOrder := Flip(s.sortOrder), page := 1)
    else s.(sortBy := column, sortOrder := Asc, page := 1)
  }

  /** Sorting by the same column twice restores the order it had before the first of the two. */
  lemma SortTwiceRestoresOrder<R>(s: TableState<R>, column: string)
    ensures HandleSort(HandleSort(s, column), column).sortOrder ==
      (if s.sortBy == column then s.sortOrder else Desc)
  {
  }

  /** Typing into the search box: a non-empty search text returns the table to page 1. */
  function SetSearch<R>(s: TableState<R>, text: string): (r: TableState<R>)
    ensures r.search == text
    ensures text != "" ==> r.page == 1
    ensures text == "" ==> r.page == s.page
    ensures r == s.(search := text, page := r.page)
  {
    if text != "" then s.(search := text, page := 1) else s.(search := text)
  }

  /** The page is one the table can show. */
  predicate PageInRange<R>(s: TableState<R>) {
    1 <= s.page <= s.totalPages
  }

  /** The First button; it is disabled on page 1. */
  function GoFirst<R>(s: TableState<R>): (r: TableState<R>)
    ensures r == s.(page := 1)
  {
    if s.page == 1 then s else s.(page := 1)
  }

  /** The Previous button; disabled on page 1, it moves back one page but not below 1. */
  function GoPrevious<R>(s: TableState<R>): (r: TableState<R>)
    ensures r == s.(page := r.page)
    ensures s.page != 1 ==> r.page == if s.page - 1 < 1 then 1 else s.page - 1
    ensures s.page == 1 ==> r == s
  {
    if s.page == 1 then s else s.(page := if 1 > s.page - 1 then 1 else s.page - 1)
  }

  /** The Next button as written: disabled only when the page equals the page count, it moves on one
      page but not past the page count. */
  function GoNext<R>(s: TableState<R>): (r: TableState<R>)
    ensures r == s.(page := r.page)
    ensures s.page != s.totalPages ==>
      r.page == if s.totalPages < s.page + 1 then s.totalPages else s.page + 1
    ensures s.page == s.totalPages ==> r == s
  {
    if s.page == s.totalPages then s
    else s.(page := if s.totalPages < s.page + 1 then s.totalPages else s.page + 1)
  }

  /** The Last button as written: disabled only when the page equals the page count. */
  function GoLast<R>(s: TableState<R>): (r: TableState<R>)
    ensures r == s.(page := s.totalPages)
  {
    if s.page == s.totalPages then s else s.(page := s.totalPages)
  }

  /** On a page the table can show, every button keeps the page in range, and Next and Previous
      move by exactly one page when they are enabled. */
  lemma NavigationKeepsPageInRange<R>(s: TableState<R>)
    requires PageInRange(s)
    ensures PageInRange(GoFirst(s)) && PageInRange(GoPrevious(s))
    ensures PageInRange(GoNext(s)) && PageInRange(GoLast(s))
    ensures s.page < s.totalPages ==> GoNext(s).page == s.page + 1
    ensures s.page > 1 ==> GoPrevious(s).page == s.page - 1
  {
  }

  /** Previous undoes Next on any page before the last. */
  lemma PreviousUndoesNext<R>(s: TableState<R>)
    requires 1 <= s.page < s.totalPages
    ensures GoPrevious(GoNext(s)) == s
  {
  }

  /** After a failed load the table shows page 1 of 0, and the Next and Last buttons, enabled
      because 1 differs from 0, take it to page 0. */
  lemma NextAfterFailedLoadReachesPageZero<R>(s: TableState<R>)
    requires s.page == 1 && s.totalPages == 0
    ensures GoNext(s).page == 0 && GoLast(s).page == 0
    ensures !PageInRange(GoNext(s))
  {
  }

  /** Next as evidently intended: disabled on the last page and on any page past it. */
  function GoNextGuarded<R>(s: TableState<R>): (r: TableState<R>)
    ensures r == s.(page := r.page)
    ensures s.page < s.totalPages ==> r.page == s.page + 1
    ensures s.page >= s.totalPages ==> r == s
  {
    if s.page >= s.totalPages then s else s.(page := s.page + 1)
  }

  /** Last as evidently intended: disabled on the last page and on any page past it. */
  function GoLastGuarded<R>(s: TableState<R>): (r: TableState<R>)
    ensures r == s.(page := r.page)
    ensures s.page < s.totalPages ==> r.page == s.totalPages
    ensures s.page >= s.totalPages ==> r == s
  {
    if s.page >= s.totalPages then s else s.(page := s.totalPages)
  }

  /** With the guarded buttons no sequence of clicks leaves page 1 or above, whatever the page
      count, and the guarded buttons agree with the written ones on a page in range. */
  lemma GuardedNavigationKeepsPagePositive<R>(s: TableState<R>)
    requires s.page >= 1
    ensures GoFirst(s).page >= 1 && GoPrevious(s).page >= 1
    ensures GoNextGuarded(s).page >= 1 && GoLastGuarded(s).page >= 1
    ensures PageInRange(s) ==> GoNextGuarded(s) == GoNext(s) && GoLastGuarded(s) == GoLast(s)
  {
  }

  /** The first row number of "Showing X to Y of Z": 0 when no rows are loaded. */
  function RangeStart<R>(s: TableState<R>): (x: int)
    ensures |s.data| == 0 ==> x == 0
    ensures |s.data| > 0 ==> (x - 1) % PageSize == 0 && (x - 1) / PageSize == s.page - 1
    ensures |s.data| > 0 && s.page >= 1 ==> x >= 1
  {
    if |s.data| > 0 then (s.page - 1) * PageSize + 1 else 0
  }

  /** The last row number of "Showing X to Y of Z": the page's end, cut at the total. */
  function RangeEnd<R>(s: TableState<R>): (y: int)
    ensures y <= s.total && y <= s.page * PageSize
    ensures y == s.total || y == s.page * PageSize
  {
    if s.page * PageSize < s.total then s.page * PageSize else s.total
  }

  /** When the loaded rows are the `page`-th slice of `total` rows (a full page, or the rest of the
      rows on the last page), the range names exactly the loaded rows. */
  lemma ShowingRangeCountsRows<R>(s: TableState<R>)
    requires s.page >= 1 && 1 <= |s.data| <= PageSize
    requires (s.page - 1) * PageSize + |s.data| <= s.total
    requires |s.data| == PageSize || (s.page - 1) * PageSize + |s.data| == s.total
    ensures 1 <= RangeStart(s) <= RangeEnd(s) <= s.total
    ensures RangeEnd(s) - RangeStart(s) + 1 == |s.data|
  {
  }

  function SortOrderName(o: SortOrder): string {
    if o == Asc then "asc" else "desc"
  }

  /** Some parameter is named `name`. */
  predicate HasParam(ps: seq<FormEncoding.Param>, name: string) {
    exists i :: 0 <= i < |ps| && ps[i].0 == name
  }

  /** Every parameter named `name` has value `value`. */
  predicate ParamValueIs(ps: seq<FormEncoding.Param>, name: string, value: string) {
    forall i :: 0 <= i < |ps| && ps[i].0 == name ==> ps[i].1 == value
  }

  /** The parameters `fetchData` puts in the query, in order: page and limit always, the trimmed
      search when it is not blank, the sort column and order when a column is sorted. */
  function QueryParams<R>(s: TableState<R>): (ps: seq<FormEncoding.Param>)
    ensures |ps| >= 2 && ps[0] == (PageParam, IntToString(s.page)) && ps[1] == (LimitParam, "50")
    ensures |ps| == 2 + (if Trim(s.search) != "" then 1 else 0) + (if s.sortBy != "" then 2 else 0)
  {
    var page := (PageParam, IntToString(s.page));
    var limit := (LimitParam, "50");
    var search := (SearchParam, Trim(s.search));
    var sortBy := (SortByParam, s.sortBy);
    var sortOrder := (SortOrderParam, SortOrderName(s.sortOrder));
    if Trim(s.search) != "" then
      if s.sortBy != "" then
        [page, limit, search, sortBy, sortOrder]
      else
        [page, limit, search]
    else if s.sortBy != "" then
      [page, limit, sortBy, sortOrder]
    else [page, limit]
  }

  const PageParam := "page"
  const LimitParam := "limit"
  const SearchParam := "search"
  const SortByParam := "sortBy"
  const SortOrderParam := "sortOrder"

  lemma ParamNamesDistinct()
    ensures SearchParam != PageParam && SearchParam != LimitParam
    ensures SearchParam != SortByParam && SearchParam != SortOrderParam
    ensures SortByParam != PageParam && SortByParam != LimitParam && SortByParam != SortOrderParam
    ensures SortOrderParam != PageParam && SortOrderParam != LimitParam
  {
    assert SearchParam[1] != SortByParam[1];
  }

  /** The search parameter is sent exactly when the trimmed search is not blank, and it carries
      the trimmed text. */
  lemma SearchParamPresence<R>(s: TableState<R>)
    ensures HasParam(QueryParams(s), SearchParam) <==> Trim(s.search) != ""
    ensures ParamValueIs(QueryParams(s), SearchParam, Trim(s.search))
  {
    var ps := QueryParams(s);
    ParamNamesDistinct();
    if Trim(s.search) != "" {
      assert ps[2].0 == SearchParam;
    }
  }

  /** The sort column and order are sent exactly when a column is sorted, with its key and order. */
  lemma SortParamsPresence<R>(s: TableState<R>)
    ensures HasParam(QueryParams(s), SortByParam) <==> s.sortBy != ""
    ensures HasParam(QueryParams(s), SortOrderParam) <==> s.sortBy != ""
    ensures ParamValueIs(QueryParams(s), SortByParam, s.sortBy)
    ensures ParamValueIs(QueryParams(s), SortOrderParam, SortOrderName(s.sortOrder))
  {
    var ps := QueryParams(s);
    ParamNamesDistinct();
    if s.sortBy != "" {
      assert ps[|ps| - 2].0 == SortByParam && ps[|ps| - 1].0 == SortOrderParam;
    }
  }

  /** A table fresh from its initial state is on a page it can show, requests page 1 with the
      page size and nothing else, and shows no range. */
  lemma InitialRequest<R>()
    ensures PageInRange(Initial<R>())
    ensures QueryParams(Initial<R>()) == [(PageParam, "1"), (LimitParam, "50")]
    ensures RangeStart(Initial<R>()) == 0
  {
    assert IntToString(1) == "1";
  }

  /** After typing a search, the next request asks for page 1 when the text is not empty, and it
      carries the search exactly when the text is not blank, trimmed. Typing the same text again
      changes nothing. */
  lemma SearchShapesRequest<R>(s: TableState<R>, text: string)
    ensures text != "" ==> QueryParams(SetSearch(s, text))[0] == (PageParam, "1")
    ensures HasParam(QueryParams(SetSearch(s, text)), SearchParam) <==> !AllWhitespace(text)
    ensures ParamValueIs(QueryParams(SetSearch(s, text)), SearchParam, Trim(text))
    ensures SetSearch(SetSearch(s, text), text) == SetSearch(s, text)
  {
    assert IntToString(1) == "1";
    BlankIffAllWhitespace(text);
    SearchParamPresence(SetSearch(s, text));
  }

  /** `?` starts the query unless the endpoint already has one, then `&` continues it. */
  function Separator(apiUrl: string): char {
    if '?' in apiUrl then '&' else '?'
  }

  /** The URL `fetchData` requests. */
  function RequestUrl<R>(apiUrl: string, s: TableState<R>): (url: string)
    ensures |url| >= |apiUrl| + 1 && url[..|apiUrl|] == apiUrl
  {
    apiUrl + [Separator(apiUrl)] + FormEncoding.Serialize(QueryParams(s))
  }

  /** The request URL is the endpoint, the right separator and a query from which a reader
      recovers exactly the table's parameters, names, values and order. */
  lemma {:induction false} RequestUrlCarriesParams<R>(apiUrl: string, s: TableState<R>)
    ensures var url := RequestUrl(apiUrl, s);
      && url[..|apiUrl|] == apiUrl
      && (url[|apiUrl|] == '&' <==> '?' in apiUrl)
      && (url[|apiUrl|] == '?' <==> '?' !in apiUrl)
      && FormEncoding.ParseQuery(url[|apiUrl| + 1..]) == Some(QueryParams(s))
  {
    var url := RequestUrl(apiUrl, s);
    var q := FormEncoding.Serialize(QueryParams(s));
    assert url == apiUrl + [Separator(apiUrl)] + q;
    assert url[|apiUrl| + 1..] == q;
    FormEncoding.SerializeRoundTrip(QueryParams(s));
  }

  /** The body of a table endpoint: `{ data, pagination: { totalPages, total } }`. `NullDocument`
      is a body that parses to `null`; absent or falsy fields are `None`. */
  datatype TableDocument<R> = NullDocument | Document(data: Option<seq<R>>, totalPages: Option<int>, total: Option<int>)

  /** The parse produced an object whose fields can be read. */
  predicate IsDocument<R>(p: Http.ParseResult<TableDocument<R>>) {
    p.Parsed? && p.value.Document?
  }

  /** The state every failure path of `fetchData` leaves: no rows, page count 0, total 0. */
  function Reset<R>(s: TableState<R>): (r: TableState<R>)
    ensures r.data == [] && r.totalPages == 0 && r.total == 0
    ensures r == s.(data := [], totalPages := 0, total := 0)
  {
    s.(data := [], totalPages := 0, total := 0)
  }

  /** `x || fallback` for an optional number: missing and 0 both fall back. */
  function OrElse(x: Option<int>, fallback: int): (r: int)
    ensures x.Some? && x.value != 0 ==> r == x.value
    ensures x.None? || x.value == 0 ==> r == fallback
  {
    if x.Some? && x.value != 0 then x.value else fallback
  }

  /** What `fetchData` makes of a response (`None` when `fetch` itself throws): a response that is
      not ok, not JSON, blank, unparsable or `null` resets the table; otherwise rows, page count
      (1 when missing or 0) and total (0 when missing) come from the document. Only the rows, the
      page count and the total change. */
  function ApplyFetch<R>(s: TableState<R>, resp: Option<Http.Response>,
                         parse: string -> Http.ParseResult<TableDocument<R>>): (r: TableState<R>)
    ensures r == s.(data := r.data, totalPages := r.totalPages, total := r.total)
    ensures resp.None? || Http.JsonBodyText(resp.value).None? ==> r == Reset(s)
    ensures resp.Some? && Http.JsonBodyText(resp.value).Some? && !IsDocument(parse(resp.value.body)) ==>
      r == Reset(s)
    ensures resp.Some? && Http.JsonBodyText(resp.value).Some? && IsDocument(parse(resp.value.body)) ==>
      var doc := parse(resp.value.body).value;
      && r.data == (if doc.data.Some? then doc.data.value else [])
      && r.totalPages != 0
      && (doc.totalPages.Some? && doc.totalPages.value != 0 ==> r.totalPages == doc.totalPages.value)
      && (doc.totalPages.None? || doc.totalPages.value == 0 ==> r.totalPages == 1)
      && r.total == (if doc.total.Some? then doc.total.value else 0)
  {
    if resp.None? then Reset(s)
    else match Http.JsonBodyText(resp.value)
      case None => Reset(s)
      case Some(text) =>
        match parse(text)
        case SyntaxError(_) => Reset(s)
        case Parsed(NullDocument) => Reset(s)
        case Parsed(Document(data, pages, total)) =>
          s.(data := if data.Some? then data.value else [],
             totalPages := OrElse(pages, 1),
             total := OrElse(total, 0))
  }

  /** A load resets the table exactly when it fails: the response is missing, rejected by the
      guard, or does not parse to a document. A document never leaves the reset state, because
      its page count is at least the fallback 1 or a non-zero value. */
  lemma ApplyFetchResetsIffFailure<R>(s: TableState<R>, resp: Option<Http.Response>,
                                      parse: string -> Http.ParseResult<TableDocument<R>>)
    ensures ApplyFetch(s, None, parse) == Reset(s)
    ensures resp.Some? ==>
      (ApplyFetch(s, resp, parse) != Reset(s) <==>
         Http.JsonBodyText(resp.value).Some? && IsDocument(parse(resp.value.body)))
  {
  }

  /** What a load shows does not depend on the rows, page count or total shown before it, and
      applying the same response again changes nothing. */
  lemma ApplyFetchForgetsPrevious<R>(s: TableState<R>, data: seq<R>, totalPages: int, total: int,
                                     resp: Option<Http.Response>,
                                     parse: string -> Http.ParseResult<TableDocument<R>>)
    ensures ApplyFetch(s.(data := data, totalPages := totalPages, total := total), resp, parse)
      == ApplyFetch(s, resp, parse)
    ensures ApplyFetch(ApplyFetch(s, resp, parse), resp, parse) == ApplyFetch(s, resp, parse)
  {
  }
}
