/** The client table of live prices: its filter and sort state, the URL
    encoding of that state, the request it sends, how it takes an answer
    in, the "show all" control, and the promotions shown under each price
    column. */
module RealTimeTable {
  import opened Wrappers
  import opened Seqs
  import opened SortToggle
  import QueryString

  /** Rows loaded before "show all" is pressed (`PAGE_SIZE`). */
  const PageSize := 20

  datatype Column = ByRegistrar | ByExtension | ByPrice | ByPromo

  /** A promotion attached to a price; `kind` is the source's numeric `type`
      (0 registration, 1 renewal, 2 transfer). */
  datatype Promo = Promo(
    id: int, code: string, price: int, kind: int, isLimited: bool, isOnlyForNewUser: bool)

  /** A price row of an answer; `promos` may be absent. */
  datatype PriceEntry = PriceEntry(
    id: int, registrar: string, extension: string,
    registrationPrice: int, renewalPrice: int, transferPrice: int,
    currency: string, promos: Option<seq<Promo>>)

  /** The filters and sort as the URL holds them. */
  datatype Filters = Filters(registrar: string, extension: string, sort: Sort<Column>)

  const Defaults := Filters("", "com", Sort(ByRegistrar, Asc))

  /** The component state: the filter boxes as typed, the filters after the
      debounce delay (those the request uses), the sort, the extension named
      in the heading, whether everything has been requested, the rows shown,
      the total and whether there are more rows than the first load shows,
      and the promotion whose details are open. */
  datatype Table = Table(
    registrarInput: string, extensionInput: string,
    registrar: string, extension: string,
    sort: Sort<Column>, currentExtension: string,
    expanded: bool, prices: seq<PriceEntry>, totalCount: int, hasMore: bool,
    activePromo: Option<int>)

  const Initial := Table("", "com", "", "com", Defaults.sort, "com", false, [], 0, false, None)

  function Typed(t: Table): Filters {
    Filters(t.registrarInput, t.extensionInput, t.sort)
  }

  function ColumnName(c: Column): string {
    match c
    case ByRegistrar => "registrar"
    case ByExtension => "extension"
    case ByPrice => "price"
    case ByPromo => "promo"
  }

  /** `sortBy` read from the URL: only the four column names are accepted. */
  function ParseColumn(s: string): (r: Option<Column>)
    ensures r.None? <==> s !in ["registrar", "extension", "price", "promo"]
    ensures r.Some? ==> ColumnName(r.value) == s
  {
    if s == "registrar" then Some(ByRegistrar)
    else if s == "extension" then Some(ByExtension)
    else if s == "price" then Some(ByPrice)
    else if s == "promo" then Some(ByPromo)
    else None
  }

  // ---------------------------------------------------------------------
  // The address bar

  /** The mount effect's reading of the URL: a missing or empty `extension`
      means `'com'`, a missing `registrar` means none, and `sortBy` and
      `sortOrder` are taken only when they are accepted names. */
  function ReadUrl(url: QueryString.Params): (r: Filters)
    ensures r.extension != ""
    ensures ("extension" in url && url["extension"] != "") ==> r.extension == url["extension"]
    ensures !("extension" in url && url["extension"] != "") ==> r.extension == "com"
    ensures r.registrar == QueryString.GetOr(url, "registrar", "")
    ensures r.sort.column == ParseColumn(QueryString.GetOr(url, "sortBy", "")).GetOr(ByRegistrar)
    ensures r.sort.order == ParseOrder(QueryString.GetOr(url, "sortOrder", "")).GetOr(Asc)
  {
    Filters(
      QueryString.GetOr(url, "registrar", Defaults.registrar),
      QueryString.GetOr(url, "extension", Defaults.extension),
      Sort(ParseColumn(QueryString.GetOr(url, "sortBy", "")).GetOr(Defaults.sort.column),
           ParseOrder(QueryString.GetOr(url, "sortOrder", "")).GetOr(Defaults.sort.order)))
  }

  /** The URL-update effect on the typed filters: `extension` is omitted when
      empty or `'com'`, `registrar` when empty, `sortBy` when `'registrar'`,
      `sortOrder` when `'asc'`; every other parameter is kept. */
  function WriteUrl(url: QueryString.Params, f: Filters): (r: QueryString.Params)
    ensures "extension" in r <==> f.extension != "" && f.extension != "com"
    ensures "registrar" in r <==> f.registrar != ""
    ensures "sortBy" in r <==> f.sort.column != ByRegistrar
    ensures "sortOrder" in r <==> f.sort.order != Asc
    ensures "extension" in r ==> r["extension"] == f.extension
    ensures "registrar" in r ==> r["registrar"] == f.registrar
    ensures "sortBy" in r ==> r["sortBy"] == ColumnName(f.sort.column)
    ensures "sortOrder" in r ==> r["sortOrder"] == OrderName(f.sort.order)
    ensures forall k :: k !in {"extension", "registrar", "sortBy", "sortOrder"} ==>
      (k in r <==> k in url) && (k in r ==> r[k] == url[k])
  {
    var u1 := QueryString.SetOrDelete(url, "extension", f.extension, f.extension != "" && f.extension != "com");
    var u2 := QueryString.SetOrDelete(u1, "registrar", f.registrar, f.registrar != "");
    var u3 := QueryString.SetOrDelete(u2, "sortBy", ColumnName(f.sort.column), f.sort.column != ByRegistrar);
    QueryString.SetOrDelete(u3, "sortOrder", OrderName(f.sort.order), f.sort.order != Asc)
  }

  /** Filters with a non-empty extension survive a write and a read. */
  lemma UrlRoundTrip(url: QueryString.Params, f: Filters)
    requires f.extension != ""
    ensures ReadUrl(WriteUrl(url, f)) == f
  {
    match f.sort.column
    case ByRegistrar =>
    case ByExtension =>
    case ByPrice =>
    case ByPromo =>
    ParseOrderName(f.sort.order);
  }

  /** An empty extension filter does not: it is written as absent and read
      back as `'com'`. */
  lemma EmptyExtensionReadsCom(url: QueryString.Params, f: Filters)
    requires f.extension == ""
    ensures ReadUrl(WriteUrl(url, f)).extension == "com"
    ensures ReadUrl(WriteUrl(url, f)) != f
  {
  }

  /** So what Clear leaves in the boxes is not what a reload restores. */
  lemma ClearIsLostOnReload(url: QueryString.Params, t: Table)
    ensures ReadUrl(WriteUrl(url, Typed(HandleClear(t)))).extension == "com"
    ensures ReadUrl(WriteUrl(url, Typed(HandleClear(t)))).registrar == ""
  {
  }

  /** Mounting: the boxes, the sort and the heading take what the URL
      says. */
  function Mount(url: QueryString.Params): (r: Table)
    ensures Typed(r) == ReadUrl(url) && r.currentExtension == r.extensionInput
  {
    var f := ReadUrl(url);
    Initial.(registrarInput := f.registrar, extensionInput := f.extension, sort := f.sort,
             currentExtension := f.extension)
  }

  // ---------------------------------------------------------------------
  // Events

  /** The applied filters and the sort become `registrar`, `extension` and
      `sort`; when any of them changes the reset effect runs: the table
      leaves the expanded mode and drops the rows shown. */
  function Apply(t: Table, registrar: string, extension: string, sort: Sort<Column>): (r: Table)
    ensures r.registrar == registrar && r.extension == extension && r.sort == sort
    ensures (registrar != t.registrar || extension != t.extension || sort != t.sort) ==>
      !r.expanded && r.prices == []
    ensures (registrar == t.registrar && extension == t.extension && sort == t.sort) ==> r == t
    ensures r.registrarInput == t.registrarInput && r.extensionInput == t.extensionInput
    ensures r.(registrar := t.registrar, extension := t.extension, sort := t.sort,
               expanded := t.expanded, prices := t.prices) == t
  {
    var s := t.(registrar := registrar, extension := extension, sort := sort);
    if registrar != t.registrar || extension != t.extension || sort != t.sort then
      s.(expanded := false, prices := [])
    else s
  }

  /** The debounce timers firing: the typed filters are applied. */
  function Settle(t: Table): (r: Table)
    ensures r.registrar == t.registrarInput && r.extension == t.extensionInput
    ensures (t.registrar != t.registrarInput || t.extension != t.extensionInput) ==>
      !r.expanded && r.prices == []
    ensures r.sort == t.sort
    ensures r.(registrar := t.registrar, extension := t.extension,
               expanded := t.expanded, prices := t.prices) == t
  {
    Apply(t, t.registrarInput, t.extensionInput, t.sort)
  }

  /** `handleSort(column)`: toggle the sort, which always resets the
      table. */
  function HandleSort(t: Table, c: Column): (r: Table)
    ensures r.sort.column == c
    ensures t.sort.column == c ==> r.sort.order == Flip(t.sort.order)
    ensures t.sort.column != c ==> r.sort.order == Asc
    ensures !r.expanded && r.prices == []
    ensures r.(sort := t.sort, expanded := t.expanded, prices := t.prices) == t
  {
    ToggleChanges(t.sort, c);
    Apply(t, t.registrar, t.extension, Toggle(t.sort, c))
  }

  /** `handleClear()`: both filter boxes become empty. */
  function HandleClear(t: Table): (r: Table)
    ensures r.registrarInput == "" && r.extensionInput == ""
    ensures r.(registrarInput := t.registrarInput, extensionInput := t.extensionInput) == t
  {
    t.(registrarInput := "", extensionInput := "")
  }

  /** `handleExpand()`: ask for every row. */
  function HandleExpand(t: Table): (r: Table)
    ensures r.expanded && r.(expanded := t.expanded) == t
  {
    t.(expanded := true)
  }

  /** The "show all" button is drawn when there are more rows than the first
      load and they have not been asked for yet. */
  predicate ShowsExpand(t: Table) {
    t.hasMore && !t.expanded
  }

  /** `togglePromoDetails(id)`: open the details of promotion `id`, or close
      them when they are already open. */
  function TogglePromo(active: Option<int>, id: int): (r: Option<int>)
    ensures r == Some(id) <==> active != Some(id)
    ensures r.Some? ==> r == Some(id)
  {
    if active == Some(id) then None else Some(id)
  }

  // ---------------------------------------------------------------------
  // The request and its answer

  /** The query string of the data request: each applied filter only when
      non-empty, the sort, always page 1, and a limit of 20, or 10000 once
      expanded. */
  function RequestParams(t: Table): (r: QueryString.Params)
    ensures "registrar" in r <==> t.registrar != ""
    ensures "extension" in r <==> t.extension != ""
    ensures "registrar" in r ==> r["registrar"] == t.registrar
    ensures "extension" in r ==> r["extension"] == t.extension
    ensures "page" in r && r["page"] == "1"
    ensures "limit" in r && r["limit"] == (if t.expanded then "10000" else "20")
    ensures "sortBy" in r && r["sortBy"] == ColumnName(t.sort.column)
    ensures "sortOrder" in r && r["sortOrder"] == OrderName(t.sort.order)
    ensures r.Keys <= {"registrar", "extension", "sortBy", "sortOrder", "limit", "page"}
  {
    var base := map["sortBy" := ColumnName(t.sort.column), "sortOrder" := OrderName(t.sort.order),
                     "limit" := if t.expanded then "10000" else "20", "page" := "1"];
    var withRegistrar := if t.registrar != "" then base["registrar" := t.registrar] else base;
    if t.extension != "" then withRegistrar["extension" := t.extension] else withRegistrar
  }

  /** What the request yields: the answer's `pagination.totalCount` and
      `prices`, either of which may be missing, or a failure (network error
      or a body that is not JSON). */
  datatype Reply = Reply(totalCount: Option<int>, prices: Option<seq<PriceEntry>>) | Failed

  /** Taking an answer in: the total (`|| 0`), `hasMore` (`totalCount > 20`,
      false when there is no total), and the rows (`|| []`); a failure only
      empties the rows. */
  function ApplyReply(t: Table, reply: Reply): (r: Table)
    ensures reply.Reply? ==> (r.hasMore <==> reply.totalCount.Some? && reply.totalCount.value > PageSize)
    ensures reply.Reply? ==> r.totalCount == reply.totalCount.GetOr(0)
    ensures reply.Reply? ==> r.prices == reply.prices.GetOr([])
    ensures reply.Failed? ==> r == t.(prices := [])
    ensures r.expanded == t.expanded && r.sort == t.sort
    ensures reply.Reply? ==> r.(totalCount := t.totalCount, hasMore := t.hasMore, prices := t.prices) == t
  {
    match reply
    case Failed => t.(prices := [])
    case Reply(count, prices) =>
      t.(totalCount := count.GetOr(0),
         hasMore := count.Some? && count.value > PageSize,
         prices := prices.GetOr([]))
  }

  /** After an answer with a total, the "show all" button is drawn exactly
      when the total exceeds the first load and the table is not expanded;
      an answer without a total never offers it. */
  lemma ExpandOffered(t: Table, reply: Reply)
    requires reply.Reply?
    ensures ShowsExpand(ApplyReply(t, reply)) <==>
      !t.expanded && reply.totalCount.Some? && reply.totalCount.value > PageSize
  {
  }

  // ---------------------------------------------------------------------
  // Promotions

  function OfKind(kind: int): Promo -> bool {
    (p: Promo) => p.kind == kind
  }

  /** The promotions shown under the price column for `kind`: those of that
      type, in the order given; none when the list is absent or empty. */
  function PromosOfKind(promos: Option<seq<Promo>>, kind: int): (r: seq<Promo>)
    ensures forall i :: 0 <= i < |r| ==> r[i].kind == kind && r[i] in promos.GetOr([])
  {
    match promos
    case None => []
    case Some(ps) => if |ps| > 0 then Filter(OfKind(kind), ps) else []
  }

  /** Each column shows every promotion of its type, as often as it is
      listed, and nothing else. */
  lemma PromoColumnCount(promos: Option<seq<Promo>>, kind: int, p: Promo)
    ensures multiset(PromosOfKind(promos, kind))[p] ==
      if p.kind == kind then multiset(promos.GetOr([]))[p] else 0
  {
    if promos.Some? && |promos.value| > 0 {
      FilterCounts(OfKind(kind), promos.value, p);
    }
  }

  /** A listed promotion appears under exactly the column of its own type:
      under one of the three price columns when its type is 0, 1 or 2, and
      under none otherwise. */
  lemma PromoInOneColumn(promos: Option<seq<Promo>>, p: Promo)
    requires p in promos.GetOr([])
    ensures forall kind :: p in PromosOfKind(promos, kind) <==> kind == p.kind
    ensures !(0 <= p.kind <= 2) ==>
      p !in PromosOfKind(promos, 0) && p !in PromosOfKind(promos, 1) && p !in PromosOfKind(promos, 2)
  {
    forall kind
      ensures p in PromosOfKind(promos, kind) <==> kind == p.kind
    {
      PromoColumnCount(promos, kind, p);
      assert p in PromosOfKind(promos, kind) <==> multiset(PromosOfKind(promos, kind))[p] > 0;
    }
  }

  /** Together the three columns show exactly the promotions of types 0, 1
      and 2. */
  lemma PromoColumnsPartition(promos: Option<seq<Promo>>)
    ensures multiset(PromosOfKind(promos, 0)) + multiset(PromosOfKind(promos, 1)) + multiset(PromosOfKind(promos, 2))
      == multiset(Filter((p: Promo) => 0 <= p.kind <= 2, promos.GetOr([])))
  {
    var all := Filter((p: Promo) => 0 <= p.kind <= 2, promos.GetOr([]));
    forall p
      ensures (multiset(PromosOfKind(promos, 0)) + multiset(PromosOfKind(promos, 1)) + multiset(PromosOfKind(promos, 2)))[p]
        == multiset(all)[p]
    {
      PromoColumnCount(promos, 0, p);
      PromoColumnCount(promos, 1, p);
      PromoColumnCount(promos, 2, p);
      FilterCounts((p: Promo) => 0 <= p.kind <= 2, promos.GetOr([]), p);
    }
  }
}
