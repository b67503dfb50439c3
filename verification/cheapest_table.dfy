/** The client table of cheapest extensions: its filter, sort and page
    state, how that state is read from and written to the address bar, the
    request it sends, and the pagination controls it draws. */
module CheapestTable {
  import opened Wrappers
  import opened Text
  import opened Paging
  import opened SortToggle
  import opened Store
  import QueryString
  import CheapestRoute

  type Column = CheapestRoute.Column

  /** The component state: the filter text as typed, the filter after the
      debounce delay (the one the URL and the request use), the sort and the
      page. */
  datatype Table = Table(input: string, applied: string, sort: Sort<Column>, page: int)

  const Initial := Table("", "", Sort(CheapestRoute.ByTld, Asc), 1)

  /** The page shown is a positive page number. */
  predicate ValidPage(t: Table) {
    t.page >= 1
  }

  function ColumnName(c: Column): string {
    match c
    case ByTld => "tld"
    case ByRegistrar => "registrar"
    case ByPrice => "price"
  }

  /** `sortBy` read from the URL: only `'tld'`, `'registrar'` and `'price'`. */
  function ParseColumn(s: string): (r: Option<Column>)
    ensures r.None? <==> s != "tld" && s != "registrar" && s != "price"
    ensures r.Some? ==> ColumnName(r.value) == s
  {
    if s == "tld" then Some(CheapestRoute.ByTld)
    else if s == "registrar" then Some(CheapestRoute.ByRegistrar)
    else if s == "price" then Some(CheapestRoute.ByPrice)
    else None
  }

  /** `page.toString()`. */
  function PageText(p: int): string {
    if p >= 0 then NatToDecimal(p) else "-" + NatToDecimal(-p)
  }

  // ---------------------------------------------------------------------
  // Events

  /** `handleSort(column)`: toggle the sort and go back to the first page. */
  function HandleSort(t: Table, c: Column): (r: Table)
    ensures r.sort.column == c && r.page == 1
    ensures t.sort.column == c ==> r.sort.order == Flip(t.sort.order)
    ensures t.sort.column != c ==> r.sort.order == Asc
    ensures r.input == t.input && r.applied == t.applied
  {
    t.(sort := Toggle(t.sort, c), page := 1)
  }

  /** Clicking the current column twice restores the direction; the page
      stays at 1. */
  lemma SortTwice(t: Table)
    ensures HandleSort(HandleSort(t, t.sort.column), t.sort.column) == t.(page := 1)
  {
    ToggleTwice(t.sort);
  }

  /** `handleClear()`: empty the filter box and go back to the first page;
      the applied filter follows once the debounce delay has passed. */
  function HandleClear(t: Table): (r: Table)
    ensures r.input == "" && r.page == 1
    ensures r.applied == t.applied && r.sort == t.sort
  {
    t.(input := "", page := 1)
  }

  /** `handlePageChange(page)`. */
  function HandlePageChange(t: Table, page: int): (r: Table)
    ensures r.page == page && r.(page := t.page) == t
  {
    t.(page := page)
  }

  /** The debounce timer firing as the component writes it: the typed filter
      becomes the applied one and the page is reset to 1, whether or not the
      filter changed. */
  function SettleAsWritten(t: Table): (r: Table)
    ensures r.applied == t.input && r.page == 1
    ensures r.input == t.input && r.sort == t.sort
  {
    t.(applied := t.input, page := 1)
  }

  /** The debounce timer firing as intended: the page goes back to 1 only
      when the applied filter actually changes. */
  function Settle(t: Table): (r: Table)
    ensures r.applied == t.input && r.input == t.input && r.sort == t.sort
    ensures t.applied == t.input ==> r == t
    ensures t.applied != t.input ==> r.page == 1
  {
    if t.applied == t.input then t else t.(applied := t.input, page := 1)
  }

  /** Every event keeps the page positive once it is; a page change does so
      when it asks for a positive page, as the pagination buttons do. */
  lemma EventsKeepPageValid(t: Table, c: Column, page: int)
    requires ValidPage(t)
    ensures ValidPage(HandleSort(t, c)) && ValidPage(HandleClear(t))
    ensures ValidPage(Settle(t)) && ValidPage(SettleAsWritten(t))
    ensures page >= 1 ==> ValidPage(HandlePageChange(t, page))
  {
  }

  // ---------------------------------------------------------------------
  // The address bar

  /** The mount effect reading the URL into the initial state: `page` only if
      it parses to a positive integer, `sortBy` and `sortOrder` only if they
      are one of the accepted names, `tldName` only if non-empty. The
      applied filter is not touched. */
  function ReadUrl(url: QueryString.Params): (r: Table)
    ensures r.applied == ""
    ensures r.input == QueryString.GetOr(url, "tldName", "")
    ensures ValidPage(r)
    ensures r.page != 1 ==> ParseInt(QueryString.GetOr(url, "page", "")) == Some(r.page)
    ensures (match ParseInt(QueryString.GetOr(url, "page", "")) case Some(n) => n > 0 case None => false) ==>
      Some(r.page) == ParseInt(QueryString.GetOr(url, "page", ""))
    ensures r.sort.column == ParseColumn(QueryString.GetOr(url, "sortBy", "")).GetOr(CheapestRoute.ByTld)
    ensures r.sort.order == ParseOrder(QueryString.GetOr(url, "sortOrder", "")).GetOr(Asc)
  {
    var page := match ParseInt(QueryString.GetOr(url, "page", ""))
      case Some(n) => if n > 0 then n else Initial.page
      case None => Initial.page;
    var column := ParseColumn(QueryString.GetOr(url, "sortBy", "")).GetOr(Initial.sort.column);
    var order := ParseOrder(QueryString.GetOr(url, "sortOrder", "")).GetOr(Initial.sort.order);
    Table(QueryString.GetOr(url, "tldName", Initial.input), Initial.applied, Sort(column, order), page)
  }

  /** The URL-update effect: each parameter is written unless it has its
      default value (page 1, `'tld'`, `'asc'`, no filter), in which case it is
      removed; every other parameter is kept. */
  function WriteUrl(url: QueryString.Params, t: Table): (r: QueryString.Params)
    ensures "page" in r <==> t.page > 1
    ensures "sortBy" in r <==> t.sort.column != CheapestRoute.ByTld
    ensures "sortOrder" in r <==> t.sort.order != Asc
    ensures "tldName" in r <==> t.applied != ""
    ensures "page" in r ==> r["page"] == NatToDecimal(t.page)
    ensures "sortBy" in r ==> r["sortBy"] == ColumnName(t.sort.column)
    ensures "sortOrder" in r ==> r["sortOrder"] == OrderName(t.sort.order)
    ensures "tldName" in r ==> r["tldName"] == t.applied
    ensures forall k :: k !in {"page", "sortBy", "sortOrder", "tldName"} ==>
      (k in r <==> k in url) && (k in r ==> r[k] == url[k])
  {
    var u1 := QueryString.SetOrDelete(url, "page", PageText(t.page), t.page > 1);
    var u2 := QueryString.SetOrDelete(u1, "sortBy", ColumnName(t.sort.column), t.sort.column != CheapestRoute.ByTld);
    var u3 := QueryString.SetOrDelete(u2, "sortOrder", OrderName(t.sort.order), t.sort.order != Asc);
    QueryString.SetOrDelete(u3, "tldName", t.applied, t.applied != "")
  }

  /** Writing a state with a positive page and reading it back gives the
      same page, sort and filter (the filter comes back as typed text). */
  lemma {:induction false} UrlRoundTrip(url: QueryString.Params, t: Table)
    requires ValidPage(t)
    ensures var r := ReadUrl(WriteUrl(url, t));
      r.page == t.page && r.sort == t.sort && r.input == t.applied
  {
    var w := WriteUrl(url, t);
    if t.page > 1 {
      ParseDecimal(t.page);
    }
    match t.sort.column
    case ByTld =>
    case ByRegistrar =>
    case ByPrice =>
    ParseOrderName(t.sort.order);
  }

  /** Mounting as the component is written: the URL is read, then the
      debounce timer that the initial render started fires. */
  function MountAsWritten(url: QueryString.Params): (r: Table)
    ensures r.page == 1
    ensures r.sort == ReadUrl(url).sort && r.applied == r.input == ReadUrl(url).input
  {
    SettleAsWritten(ReadUrl(url))
  }

  /** The page read from the URL is always lost on mount: a bookmarked
      `?page=3` shows page 1. */
  lemma MountLosesPage()
    ensures var url := map["page" := "3"];
      ReadUrl(url).page == 3 && MountAsWritten(url).page == 1
      && MountAsWritten(WriteUrl(map[], Initial.(page := 3))).page == 1
  {
    var url := map["page" := "3"];
    assert QueryString.GetOr(url, "page", "") == "3";
    ParseNumeral("3");
  }

  /** Mounting as intended: the filter read from the URL is applied at once,
      so the debounce timer has nothing to change and the page is kept. */
  function Mount(url: QueryString.Params): (r: Table)
    ensures r.applied == r.input
    ensures Settle(r) == r
    ensures ValidPage(r)
  {
    var t := ReadUrl(url);
    t.(applied := t.input)
  }

  /** With the intended mount, reloading the page restores every settled
      state exactly. */
  lemma MountRoundTrip(url: QueryString.Params, t: Table)
    requires ValidPage(t) && t.input == t.applied
    ensures Mount(WriteUrl(url, t)) == t
  {
    UrlRoundTrip(url, t);
  }

  // ---------------------------------------------------------------------
  // The request

  /** The query string of the data request: sort column and direction, the
      page, a limit of 20, and the applied filter when it is non-empty. */
  function RequestParams(t: Table): (r: QueryString.Params)
    ensures "sortBy" in r && r["sortBy"] == ColumnName(t.sort.column)
    ensures "sortOrder" in r && r["sortOrder"] == OrderName(t.sort.order)
    ensures "page" in r && r["page"] == PageText(t.page)
    ensures "limit" in r && r["limit"] == "20"
    ensures "tldName" in r <==> t.applied != ""
    ensures "tldName" in r ==> r["tldName"] == t.applied
    ensures r.Keys <= {"sortBy", "sortOrder", "page", "limit", "tldName"}
  {
    var base := map["sortBy" := ColumnName(t.sort.column), "sortOrder" := OrderName(t.sort.order),
                     "page" := PageText(t.page), "limit" := "20"];
    if t.applied != "" then base["tldName" := t.applied] else base
  }

  /** The route reads the request back as it was meant: the table's page,
      20 rows, the table's column and direction, and its filter; so the
      query is accepted and the page count is a number. */
  lemma RouteReadsRequest(t: Table)
    requires ValidPage(t)
    ensures var q := RequestParams(t);
      && CheapestRoute.PageParam(q) == Some(t.page)
      && CheapestRoute.LimitParam(q) == Some(20)
      && CheapestRoute.QueryAccepted(CheapestRoute.PageParam(q), CheapestRoute.LimitParam(q))
      && CheapestRoute.SortParams(q) == (t.sort.column, t.sort.order == Desc)
      && CheapestRoute.FilterParam(q) == (if t.applied == "" then None else Some(t.applied))
  {
    var q := RequestParams(t);
    PageRead(q, t.page);
    LimitTwenty(q);
    assert CheapestRoute.Offset(t.page, 20) >= 0;
    SortRead(q, t.sort);
  }

  lemma PageRead(q: QueryString.Params, page: int)
    requires page >= 1 && "page" in q && q["page"] == PageText(page)
    ensures CheapestRoute.PageParam(q) == Some(page)
  {
    assert QueryString.GetOr(q, "page", "1") == NatToDecimal(page);
    ParseDecimal(page);
  }

  lemma SortRead(q: QueryString.Params, sort: Sort<Column>)
    requires "sortBy" in q && q["sortBy"] == ColumnName(sort.column)
    requires "sortOrder" in q && q["sortOrder"] == OrderName(sort.order)
    ensures CheapestRoute.SortParams(q) == (sort.column, sort.order == Desc)
  {
    assert QueryString.GetOr(q, "sortBy", "tld") == ColumnName(sort.column);
    assert QueryString.GetOr(q, "sortOrder", "asc") == OrderName(sort.order);
    match sort.column
    case ByTld =>
    case ByRegistrar =>
    case ByPrice =>
  }

  lemma LimitTwenty(q: QueryString.Params)
    requires "limit" in q && q["limit"] == "20"
    ensures CheapestRoute.LimitParam(q) == Some(20)
  {
    var text := QueryString.GetOr(q, "limit", "20");
    assert text == "20";
    TwentyReads();
    assert ParseInt(text) == Some(20);
  }

  lemma TwentyReads()
    ensures ParseInt("20") == Some(20)
  {
    ParseNumeral("20");
    TwentyValue();
  }

  lemma TwentyValue()
    ensures DigitsValue("20", 10) == 20
  {
    assert DigitsValue("20", 10) == DigitsValue("2", 10) * 10 + DigitValue('0');
  }

  // ---------------------------------------------------------------------
  // Pagination controls

  /** The first of the page buttons. */
  function WindowStart(page: int, totalPages: int): int {
    if totalPages <= 5 then 1
    else if page <= 3 then 1
    else if page >= totalPages - 2 then totalPages - 4
    else page - 2
  }

  /** The page-number buttons: at most five consecutive page numbers, all
      of them real pages, and the current page among them whenever it is
      one. */
  function PageWindow(page: int, totalPages: int): (r: seq<int>)
    ensures |r| == Max(0, Min(totalPages, 5))
    ensures forall i :: 0 <= i < |r| ==> r[i] == r[0] + i
    ensures forall i :: 0 <= i < |r| ==> 1 <= r[i] <= totalPages
    ensures 1 <= page <= totalPages ==> page in r
  {
    var start := WindowStart(page, totalPages);
    var r := seq(Max(0, Min(totalPages, 5)), i => start + i);
    if 1 <= page <= totalPages then
      assert r[page - start] == page;
      r
    else r
  }

  /** The first record number of "Showing X to Y of N". */
  function RangeStart(p: CheapestRoute.Pagination): int {
    CheapestRoute.Offset(p.page, p.limit) + 1
  }

  /** The last record number of "Showing X to Y of N". */
  function RangeEnd(p: CheapestRoute.Pagination): (r: int)
    ensures r <= p.totalCount
  {
    Min(p.page * p.limit, p.totalCount)
  }

  /** When every row's registrar exists, the range the table shows for an
      answer counts exactly the rows in it (none when the page is past the
      end). */
  lemma RangeCountsShownRows(db: Db, page: int, limit: nat, offset: nat,
                             filter: Option<string>, c: Column, desc: bool)
    requires page >= 1 && limit > 0 && offset == CheapestRoute.Offset(page, limit)
    requires forall p :: p in db.prices ==> FindReg(db.regs, p.regId).Some?
    ensures var r := CheapestRoute.Respond(db, page, limit, false, offset, filter, c, desc);
      |r.prices| == Max(0, RangeEnd(r.pagination) - RangeStart(r.pagination) + 1)
  {
    var r := CheapestRoute.Respond(db, page, limit, false, offset, filter, c, desc);
    var n := |CheapestRoute.Listing(db, filter, c, desc)|;
    assert r.pagination.totalCount == n by {
      CheapestRoute.CountMatchesListing(db, filter, c, desc);
    }
    RangeOfShown(r.pagination, |r.prices|, n, offset);
  }

  lemma RangeOfShown(p: CheapestRoute.Pagination, shown: nat, n: nat, offset: nat)
    requires p.page >= 1 && offset == CheapestRoute.Offset(p.page, p.limit) && p.limit >= 0
    requires p.totalCount == n
    requires shown == if offset >= n then 0 else Min(p.limit, n - offset)
    ensures shown == Max(0, RangeEnd(p) - RangeStart(p) + 1)
  {
    RangeArithmetic(p.page, p.limit, offset, n);
  }

  lemma RangeArithmetic(page: int, limit: nat, offset: nat, count: int)
    requires page >= 1 && offset == CheapestRoute.Offset(page, limit)
    ensures Max(0, Min(page * limit, count) - (offset + 1) + 1) ==
      if offset >= count then 0 else Min(limit, count - offset)
  {
    assert page * limit == offset + limit;
  }
}
