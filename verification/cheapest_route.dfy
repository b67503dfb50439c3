/** `GET /api/cheapest-tlds`: one row per extension, the one the window
    function `ROW_NUMBER() OVER (PARTITION BY tld_id ORDER BY reg_price ASC)`
    ranks first, joined with its registrar and extension, filtered by a
    substring of the extension name, sorted, cut to one page, and wrapped in
    a pagination envelope whose total comes from a separate count query. */
module CheapestRoute {
  import opened Wrappers
  import opened Text
  import opened Seqs
  import opened Ordering
  import opened Paging
  import opened Store
  import QueryString

  const MaxLimit := 20

  // ---------------------------------------------------------------------
  // The ranking: rows with rn = 1

  /** Row `i` is the one ranked first in its `tld_id` partition: no row of
      the partition is cheaper, and among equally cheap rows it comes first
      in scan order. The scan order stands for the database's unspecified
      choice among ties. */
  predicate IsRankOne(all: seq<PriceRow>, i: int)
    requires 0 <= i < |all|
  {
    forall j :: 0 <= j < |all| && all[j].tldId == all[i].tldId ==>
      all[i].regPrice < all[j].regPrice || (all[i].regPrice == all[j].regPrice && i <= j)
  }

  /** The positions from `k` on that are ranked first, in increasing order. */
  function RankOneFrom(all: seq<PriceRow>, k: nat): (r: seq<nat>)
    requires k <= |all|
    ensures forall m :: 0 <= m < |r| ==> k <= r[m] < |all| && IsRankOne(all, r[m])
    ensures forall m, n :: 0 <= m < n < |r| ==> r[m] < r[n]
    ensures forall i :: k <= i < |all| && IsRankOne(all, i) ==> i in r
    decreases |all| - k
  {
    if k == |all| then []
    else (if IsRankOne(all, k) then [k] else []) + RankOneFrom(all, k + 1)
  }

  function RowTld(): PriceRow -> int {
    (p: PriceRow) => p.tldId
  }

  /** The rows with `rn = 1`, in scan order. */
  function RankOne(all: seq<PriceRow>): (r: seq<PriceRow>)
  {
    var idx := RankOneFrom(all, 0);
    seq(|idx|, m requires 0 <= m < |idx| => all[idx[m]])
  }

  /** Every row ranked first is a stored row. */
  lemma RankOneStored(all: seq<PriceRow>)
    ensures forall m :: 0 <= m < |RankOne(all)| ==> RankOne(all)[m] in all
  {
  }

  /** No stored row of its extension is cheaper than a row ranked first. */
  lemma RankOneMinimal(all: seq<PriceRow>, m: int, p: PriceRow)
    requires 0 <= m < |RankOne(all)| && p in all && p.tldId == RankOne(all)[m].tldId
    ensures RankOne(all)[m].regPrice <= p.regPrice
  {
    var idx := RankOneFrom(all, 0);
    var j :| 0 <= j < |all| && all[j] == p;
    assert IsRankOne(all, idx[m]);
  }

  /** At most one row per extension is ranked first. */
  lemma RankOneDistinct(all: seq<PriceRow>)
    ensures DistinctBy(RowTld(), RankOne(all))
  {
    var idx := RankOneFrom(all, 0);
    var r := RankOne(all);
    forall m, n | 0 <= m < n < |r|
      ensures r[m].tldId != r[n].tldId
    {
      if r[m].tldId == r[n].tldId {
        RankOneUnique(all, idx[m], idx[n]);
      }
    }
  }

  /** Every extension that has stored rows has a row ranked first. */
  lemma RankOneCovers(all: seq<PriceRow>, p: PriceRow) returns (m: nat)
    requires p in all
    ensures m < |RankOne(all)| && RankOne(all)[m].tldId == p.tldId
  {
    var idx := RankOneFrom(all, 0);
    var i :| 0 <= i < |all| && all[i] == p;
    var b := RankOneExists(all, i);
    m :| 0 <= m < |idx| && idx[m] == b;
  }

  /** Two rows ranked first in the same partition are the same row. */
  lemma RankOneUnique(all: seq<PriceRow>, i: int, j: int)
    requires 0 <= i < |all| && 0 <= j < |all|
    requires IsRankOne(all, i) && IsRankOne(all, j)
    requires all[i].tldId == all[j].tldId
    ensures i == j
  {
  }

  /** The position of the cheapest row of partition `t` among the first `n`
      rows, the earliest one among equally cheap rows. */
  function Cheapest(all: seq<PriceRow>, t: int, n: nat): (r: Option<nat>)
    requires n <= |all|
    ensures r.None? <==> forall j :: 0 <= j < n ==> all[j].tldId != t
    ensures r.Some? ==> r.value < n && all[r.value].tldId == t
    ensures r.Some? ==> forall j :: 0 <= j < n && all[j].tldId == t ==>
      all[r.value].regPrice < all[j].regPrice || (all[r.value].regPrice == all[j].regPrice && r.value <= j)
  {
    if n == 0 then None
    else
      var best := Cheapest(all, t, n - 1);
      if all[n - 1].tldId != t then best
      else if best.None? || all[n - 1].regPrice < all[best.value].regPrice then Some(n - 1)
      else best
  }

  /** Every partition has a row ranked first. */
  lemma {:induction false} RankOneExists(all: seq<PriceRow>, i: int) returns (b: nat)
    requires 0 <= i < |all|
    ensures b < |all| && IsRankOne(all, b) && all[b].tldId == all[i].tldId
  {
    b := Cheapest(all, all[i].tldId, |all|).value;
  }

  // ---------------------------------------------------------------------
  // Joining, filtering and sorting

  /** A ranked row together with the registrar and extension names the
      joins add (`r.name as registrar_name`, `t.name as tld_name`). */
  datatype Joined = Joined(row: PriceRow, registrarName: string, tldName: string)

  /** The name filter: none, or the substring the extension name must contain. */
  predicate NameMatches(filter: Option<string>, name: string) {
    filter.None? || Contains(name, filter.value)
  }

  /** A ranked row survives the `WHERE` clause and both inner joins: its
      registrar and its extension exist and the extension passes the filter. */
  predicate Selected(db: Db, filter: Option<string>, p: PriceRow) {
    FindReg(db.regs, p.regId).Some? && FindTld(db.tlds, p.tldId).Some?
    && NameMatches(filter, FindTld(db.tlds, p.tldId).value.name)
  }

  function JoinOf(db: Db, p: PriceRow): Joined
    requires FindReg(db.regs, p.regId).Some? && FindTld(db.tlds, p.tldId).Some?
  {
    Joined(p, FindReg(db.regs, p.regId).value.name, FindTld(db.tlds, p.tldId).value.name)
  }

  function JoinedTld(): Joined -> int {
    (j: Joined) => j.row.tldId
  }

  /** The selected rows of `rows`, joined, in order. */
  function Select(db: Db, filter: Option<string>, rows: seq<PriceRow>): (r: seq<Joined>)
    ensures forall i :: 0 <= i < |r| ==> r[i].row in rows && Selected(db, filter, r[i].row) && r[i] == JoinOf(db, r[i].row)
    ensures forall p :: p in rows && Selected(db, filter, p) ==> JoinOf(db, p) in r
    decreases |rows|
  {
    if |rows| == 0 then []
    else
      var rest := Select(db, filter, rows[1..]);
      assert forall p :: p in rows ==> p == rows[0] || p in rows[1..];
      if Selected(db, filter, rows[0]) then [JoinOf(db, rows[0])] + rest else rest
  }

  /** Selecting from rows of distinct extensions keeps them distinct. */
  lemma {:induction false} SelectDistinct(db: Db, filter: Option<string>, rows: seq<PriceRow>)
    requires DistinctBy(RowTld(), rows)
    ensures DistinctBy(JoinedTld(), Select(db, filter, rows))
    decreases |rows|
  {
    if |rows| > 0 {
      var rest := Select(db, filter, rows[1..]);
      assert DistinctBy(RowTld(), rows[1..]);
      SelectDistinct(db, filter, rows[1..]);
      forall i | 0 <= i < |rest|
        ensures rest[i].row.tldId != rows[0].tldId
      {
        var n :| 0 <= n < |rows[1..]| && rows[1..][n] == rest[i].row;
        assert rows[n + 1] == rest[i].row;
      }
      if Selected(db, filter, rows[0]) {
        ConsDistinct(JoinedTld(), JoinOf(db, rows[0]), rest);
      }
    }
  }

  /** The column `ORDER BY` uses. */
  datatype Column = ByTld | ByRegistrar | ByPrice

  /** `'tld'` orders by extension name, `'registrar'` by registrar name, and
      every other value by registration price. */
  function ColumnOf(sortBy: string): (c: Column)
    ensures c == ByTld <==> sortBy == "tld"
    ensures c == ByRegistrar <==> sortBy == "registrar"
  {
    if sortBy == "tld" then ByTld else if sortBy == "registrar" then ByRegistrar else ByPrice
  }

  function SortKey(c: Column): Joined -> Key {
    match c
    case ByTld => (j: Joined) => Text(j.tldName)
    case ByRegistrar => (j: Joined) => Text(j.registrarName)
    case ByPrice => (j: Joined) => Num(j.row.regPrice)
  }

  /** The whole result before `LIMIT`/`OFFSET`. */
  function Listing(db: Db, filter: Option<string>, c: Column, desc: bool): (r: seq<Joined>)
    ensures SortedBy(SortKey(c), desc, r)
  {
    Sort(SortKey(c), desc, Select(db, filter, RankOne(db.prices)))
  }

  /** The listing: one row per extension, each priced no higher than any
      stored row of that extension, each with a name that passes the filter,
      sorted by the requested column. */
  lemma ListingSpec(db: Db, filter: Option<string>, c: Column, desc: bool)
    ensures DistinctBy(JoinedTld(), Listing(db, filter, c, desc))
    ensures SortedBy(SortKey(c), desc, Listing(db, filter, c, desc))
    ensures forall i :: 0 <= i < |Listing(db, filter, c, desc)| ==>
      ListedRow(db, filter, Listing(db, filter, c, desc)[i])
  {
    var ranked := RankOne(db.prices);
    RankOneDistinct(db.prices);
    var kept := Select(db, filter, ranked);
    SelectDistinct(db, filter, ranked);
    SortDistinct(SortKey(c), desc, JoinedTld(), kept);
    var l := Listing(db, filter, c, desc);
    forall i | 0 <= i < |l|
      ensures ListedRow(db, filter, l[i])
    {
      assert l[i] in multiset(kept);
      var k :| 0 <= k < |kept| && kept[k] == l[i];
      var m :| 0 <= m < |ranked| && ranked[m] == l[i].row;
      RankOneStored(db.prices);
      forall p | p in db.prices && p.tldId == l[i].row.tldId
        ensures l[i].row.regPrice <= p.regPrice
      {
        RankOneMinimal(db.prices, m, p);
      }
    }
  }

  /** What every listed row satisfies: it is a stored row, no stored row of
      its extension is cheaper, and it carries its registrar's and extension's
      names, the latter passing the filter. */
  predicate ListedRow(db: Db, filter: Option<string>, j: Joined) {
    && j.row in db.prices
    && (forall p :: p in db.prices && p.tldId == j.row.tldId ==> j.row.regPrice <= p.regPrice)
    && Selected(db, filter, j.row)
    && j.registrarName == FindReg(db.regs, j.row.regId).value.name
    && j.tldName == FindTld(db.tlds, j.row.tldId).value.name
    && NameMatches(filter, j.tldName)
  }

  // ---------------------------------------------------------------------
  // The count query

  /** A row the count query sees: its extension exists and passes the filter
      (`COUNT(DISTINCT tld_id) ... JOIN tld t ... WHERE t.name LIKE ...`, with
      no `rn = 1` condition and no registrar join). */
  predicate Counted(db: Db, filter: Option<string>, p: PriceRow) {
    FindTld(db.tlds, p.tldId).Some? && NameMatches(filter, FindTld(db.tlds, p.tldId).value.name)
  }

  function CountedIds(db: Db, filter: Option<string>): set<int> {
    set p | p in db.prices && Counted(db, filter, p) :: p.tldId
  }

  function TotalCount(db: Db, filter: Option<string>): nat {
    |CountedIds(db, filter)|
  }

  /** The extension of each selected ranked row, in order. */
  function SelectedIds(db: Db, filter: Option<string>): (ids: seq<int>)
    ensures |ids| == |Select(db, filter, RankOne(db.prices))|
  {
    var kept := Select(db, filter, RankOne(db.prices));
    seq(|kept|, i requires 0 <= i < |kept| => kept[i].row.tldId)
  }

  lemma CountedAreSelected(db: Db, filter: Option<string>, t: int)
    requires forall p :: p in db.prices ==> FindReg(db.regs, p.regId).Some?
    requires t in CountedIds(db, filter)
    ensures t in SelectedIds(db, filter)
  {
    var ranked := RankOne(db.prices);
    var kept := Select(db, filter, ranked);
    var p :| p in db.prices && Counted(db, filter, p) && p.tldId == t;
    var m := RankOneCovers(db.prices, p);
    RankOneStored(db.prices);
    assert ranked[m] in db.prices && ranked[m] in ranked;
    assert Selected(db, filter, ranked[m]);
    assert JoinOf(db, ranked[m]) in kept;
    var i :| 0 <= i < |kept| && kept[i] == JoinOf(db, ranked[m]);
    assert SelectedIds(db, filter)[i] == t;
  }

  lemma SelectedAreCounted(db: Db, filter: Option<string>, t: int)
    requires t in SelectedIds(db, filter)
    ensures t in CountedIds(db, filter)
  {
    var kept := Select(db, filter, RankOne(db.prices));
    var ids := SelectedIds(db, filter);
    var i :| 0 <= i < |ids| && ids[i] == t;
    RankOneStored(db.prices);
    assert kept[i].row in db.prices && Counted(db, filter, kept[i].row);
  }

  /** When every stored row's registrar exists, the count query agrees with
      the length of the listing it paginates. */
  lemma CountMatchesListing(db: Db, filter: Option<string>, c: Column, desc: bool)
    requires forall p :: p in db.prices ==> FindReg(db.regs, p.regId).Some?
    ensures TotalCount(db, filter) == |Listing(db, filter, c, desc)|
  {
    var ids := SelectedIds(db, filter);
    SelectedIdsDistinct(db, filter);
    NoDuplicatesCard(ids);
    SelectedIdsAreCounted(db, filter);
  }

  lemma SelectedIdsDistinct(db: Db, filter: Option<string>)
    ensures NoDuplicates(SelectedIds(db, filter))
  {
    var kept := Select(db, filter, RankOne(db.prices));
    RankOneDistinct(db.prices);
    SelectDistinct(db, filter, RankOne(db.prices));
    assert DistinctBy(JoinedTld(), kept);
  }

  lemma SelectedIdsAreCounted(db: Db, filter: Option<string>)
    requires forall p :: p in db.prices ==> FindReg(db.regs, p.regId).Some?
    ensures (set x | x in SelectedIds(db, filter)) == CountedIds(db, filter)
  {
    var ids := SelectedIds(db, filter);
    forall t | t in CountedIds(db, filter)
      ensures t in ids
    {
      CountedAreSelected(db, filter, t);
    }
    forall t | t in ids
      ensures t in CountedIds(db, filter)
    {
      SelectedAreCounted(db, filter, t);
    }
  }

  /** Without that assumption the two can disagree: an extension whose
      cheapest row names a missing registrar is counted but not listed. */
  lemma CountWithMissingRegistrar()
    ensures var db := Db([Tld(1, ".com", 0, 0)], [], [PriceRow(7, 3, 1, 888, 1398, 958, 0)]);
      TotalCount(db, None) == 1 && |Listing(db, None, ByTld, false)| == 0
  {
    var db := Db([Tld(1, ".com", 0, 0)], [], [PriceRow(7, 3, 1, 888, 1398, 958, 0)]);
    assert Counted(db, None, db.prices[0]);
    assert CountedIds(db, None) == {1};
    assert !Selected(db, None, db.prices[0]);
    assert RankOneFrom(db.prices, 1) == [];
    assert Select(db, None, RankOne(db.prices)) == [];
  }

  // ---------------------------------------------------------------------
  // The handler

  /** `Math.ceil(totalCount / limit)` as a JavaScript number: a page count,
      or `Infinity`, `-Infinity` or `NaN` when `limit` is 0 (all three
      serialise as `null`). */
  datatype PageCount = Pages(n: int) | Infinite | NegInfinite | NotANumber

  /** `negativeZero` says whether the limit is `-0` rather than `0`: dividing
      a positive count by `-0` gives `-Infinity`, and `0 / -0` is `NaN`. */
  function TotalPages(count: nat, limit: nat, negativeZero: bool): (r: PageCount)
    ensures limit > 0 ==> r.Pages? && r.n * limit >= count && (r.n == 0 || (r.n - 1) * limit < count)
    ensures limit == 0 ==> !r.Pages?
    ensures limit == 0 ==> (r == Infinite <==> count > 0 && !negativeZero)
    ensures limit == 0 ==> (r == NegInfinite <==> count > 0 && negativeZero)
  {
    if limit > 0 then Pages(CeilDiv(count, limit))
    else if count == 0 then NotANumber
    else if negativeZero then NegInfinite
    else Infinite
  }

  /** `page < totalPages`. */
  predicate HasNext(page: int, total: PageCount) {
    match total
    case Pages(n) => page < n
    case Infinite => true
    case NegInfinite => false
    case NotANumber => false
  }

  /** A formatted row of the response. */
  datatype CheapestPrice = CheapestPrice(
    id: int, registrar: string, tld: string,
    registrationPrice: int, renewalPrice: int, transferPrice: int,
    currency: string, createdAt: int)

  function Format(j: Joined): (r: CheapestPrice)
    ensures r.currency == "USD"
    ensures r.id == j.row.id && r.registrationPrice == j.row.regPrice
    ensures r.registrar == (if j.registrarName == "" then "Unknown" else j.registrarName)
    ensures r.tld == (if j.tldName == "" then "Unknown" else j.tldName)
    ensures r.renewalPrice == j.row.renewPrice && r.transferPrice == j.row.transferPrice && r.createdAt == j.row.createdAt
  {
    CheapestPrice(
      j.row.id, OrElse(j.registrarName, "Unknown"), OrElse(j.tldName, "Unknown"),
      j.row.regPrice, j.row.renewPrice, j.row.transferPrice, "USD", j.row.createdAt)
  }

  datatype Pagination = Pagination(
    page: int, limit: int, totalCount: int, totalPages: PageCount,
    hasNext: bool, hasPrev: bool)

  datatype Response = Response(status: int, prices: seq<CheapestPrice>, pagination: Pagination)

  /** The `catch` branch: nothing found, one page of 20, status 500. */
  const ErrorResponse := Response(500, [], Pagination(1, 20, 0, Pages(1), false, false))

  /** `parseInt(searchParams.get('page') || '1')`; `None` is `NaN`. */
  function PageParam(q: QueryString.Params): Option<int> {
    ParseInt(QueryString.GetOr(q, "page", "1"))
  }

  /** `Math.min(parseInt(searchParams.get('limit') || '20'), 20)`. */
  function LimitParam(q: QueryString.Params): (r: Option<int>)
    ensures r.Some? ==> r.value <= MaxLimit
    ensures r.Some? <==> ParseInt(QueryString.GetOr(q, "limit", "20")).Some?
    ensures r.Some? ==> var v := ParseInt(QueryString.GetOr(q, "limit", "20")).value;
      r.value <= v && (r.value == v || r.value == MaxLimit)
  {
    match ParseInt(QueryString.GetOr(q, "limit", "20"))
    case None => None
    case Some(v) => Some(Min(v, MaxLimit))
  }

  /** The limit is `-0`: `parseInt` returns negative zero and `Math.min(-0, 20)`
      keeps it. `LimitParam` gives its value, 0. */
  function LimitIsNegativeZero(q: QueryString.Params): (r: bool)
    ensures r ==> LimitParam(q) == Some(0)
  {
    ReadsNegativeZero(QueryString.GetOr(q, "limit", "20"))
  }

  /** The extension-name filter: `tldName` when it is present and non-empty. */
  function FilterParam(q: QueryString.Params): (r: Option<string>)
    ensures r.Some? ==> r.value != "" && QueryString.Get(q, "tldName") == r
    ensures r.None? ==> QueryString.GetOr(q, "tldName", "") == ""
  {
    var f := QueryString.GetOr(q, "tldName", "");
    if f == "" then None else Some(f)
  }

  /** `(page - 1) * limit`, the `OFFSET` of the page. */
  function Offset(page: int, limit: int): int {
    (page - 1) * limit
  }

  /** The SQL the handler builds is accepted: both numbers are numbers
      (`NaN` makes the text invalid) and neither `LIMIT` nor `OFFSET` is
      negative, which the database refuses. */
  predicate QueryAccepted(page: Option<int>, limit: Option<int>) {
    page.Some? && limit.Some? && limit.value >= 0 && Offset(page.value, limit.value) >= 0
  }

  /** A successful answer for page `page` of `limit` rows, whose first row
      is at `offset`: the page is the slice of the listing starting there, the
      total comes from the count query, and the envelope is derived from both.
      `negativeZero` says whether the limit is `-0`. */
  function Respond(db: Db, page: int, limit: nat, negativeZero: bool, offset: nat, filter: Option<string>,
                   c: Column, desc: bool): (r: Response)
    ensures r.status == 200
    ensures r.pagination.page == page && r.pagination.limit == limit
    ensures r.pagination.totalCount == TotalCount(db, filter)
    ensures |r.prices| <= limit
    ensures |r.prices| == |Window(Listing(db, filter, c, desc), offset, limit)|
    ensures forall i :: 0 <= i < |r.prices| ==>
      r.prices[i] == Format(Listing(db, filter, c, desc)[offset + i])
    ensures r.pagination.hasPrev <==> page > 1
    ensures limit > 0 ==> r.pagination.totalPages == Pages(CeilDiv(r.pagination.totalCount, limit))
    ensures limit > 0 ==> (r.pagination.hasNext <==> page < CeilDiv(r.pagination.totalCount, limit))
    ensures r.pagination.totalPages == TotalPages(r.pagination.totalCount, limit, negativeZero)
    ensures r.pagination.hasNext <==> HasNext(page, r.pagination.totalPages)
  {
    var count := TotalCount(db, filter);
    var total := TotalPages(count, limit, negativeZero);
    Response(200, PageRows(Listing(db, filter, c, desc), offset, limit),
             Pagination(page, limit, count, total, HasNext(page, total), page > 1))
  }

  /** The formatted rows of one page of `listing`. */
  function PageRows(listing: seq<Joined>, offset: nat, limit: nat): (r: seq<CheapestPrice>)
    ensures |r| == |Window(listing, offset, limit)| && |r| <= limit
    ensures forall i :: 0 <= i < |r| ==> offset + i < |listing| && r[i] == Format(listing[offset + i])
  {
    var rows := Window(listing, offset, limit);
    seq(|rows|, i requires 0 <= i < |rows| => Format(rows[i]))
  }

  /** The column and direction the request asks for, with the defaults
      `'tld'` and `'asc'`; any direction other than `'asc'` is descending. */
  function SortParams(q: QueryString.Params): (Column, bool) {
    (ColumnOf(QueryString.GetOr(q, "sortBy", "tld")), QueryString.GetOr(q, "sortOrder", "asc") != "asc")
  }

  /** The handler, given the tables and whether the database answers. */
  function Get(db: Db, available: bool, q: QueryString.Params): (r: Response)
    ensures r.pagination.limit <= MaxLimit
    ensures r.status == 200 <==> available && QueryAccepted(PageParam(q), LimitParam(q))
    ensures r.status != 200 ==> r == ErrorResponse
    ensures r.status == 200 ==>
      r == Respond(db, PageParam(q).value, LimitParam(q).value, LimitIsNegativeZero(q),
                   Offset(PageParam(q).value, LimitParam(q).value), FilterParam(q), SortParams(q).0, SortParams(q).1)
    ensures r.status == 200 && LimitParam(q) == Some(0) && r.pagination.totalCount > 0 ==>
      (r.pagination.hasNext <==> !LimitIsNegativeZero(q))
  {
    var page := PageParam(q);
    var limit := LimitParam(q);
    if !available || !QueryAccepted(page, limit) then ErrorResponse
    else Respond(db, page.value, limit.value, LimitIsNegativeZero(q), Offset(page.value, limit.value),
                 FilterParam(q), SortParams(q).0, SortParams(q).1)
  }

  /** `?limit=-0` is accepted; when rows are counted the page count is
      `-Infinity`, so no page follows. */
  lemma MinusZeroLimit(db: Db)
    ensures var r := Get(db, true, map["limit" := "-0"]);
      && r.status == 200 && r.pagination.limit == 0
      && (r.pagination.totalCount > 0 ==> r.pagination.totalPages == NegInfinite && !r.pagination.hasNext)
  {
    assert "-0" == "-" + "0";
    LimitTextReads(map["limit" := "-0"], "-");
  }

  /** `?limit=0` is accepted too; when rows are counted the page count is
      `Infinity`, so every page has a next one. */
  lemma ZeroLimit(db: Db)
    ensures var r := Get(db, true, map["limit" := "0"]);
      && r.status == 200 && r.pagination.limit == 0
      && (r.pagination.totalCount > 0 ==> r.pagination.totalPages == Infinite && r.pagination.hasNext)
  {
    assert "0" == "" + "0";
    LimitTextReads(map["limit" := "0"], "");
  }

  /** A query holding only `limit`, written as a zero with an optional minus. */
  lemma LimitTextReads(q: QueryString.Params, sign: string)
    requires sign == "" || sign == "-"
    requires q == map["limit" := sign + "0"]
    ensures PageParam(q) == Some(1) && LimitParam(q) == Some(0)
    ensures LimitIsNegativeZero(q) <==> sign == "-"
  {
    assert QueryString.GetOr(q, "page", "1") == "" + [DigitChar(1)];
    assert QueryString.GetOr(q, "limit", "20") == sign + [DigitChar(0)];
    NumeralReads(1, "");
    NumeralReads(0, sign);
  }

  /** How `parseInt` reads a one-digit numeral after an optional minus. */
  lemma NumeralReads(d: nat, sign: string)
    requires d < 10 && (sign == "" || sign == "-")
    ensures ParseInt(sign + [DigitChar(d)]) == Some(if sign == "-" then -(d as int) else d)
    ensures ReadsNegativeZero(sign + [DigitChar(d)]) <==> sign == "-" && d == 0
  {
    assert NatToDecimal(d) == [DigitChar(d)];
    assert "" + sign + NatToDecimal(d) + "" == sign + [DigitChar(d)];
    ParseIntReads("", sign, d, "");
    NegativeZeroReads("", sign, d, "");
  }

  /** Every returned row's extension name contains the requested substring. */
  lemma ReturnedRowsMatchFilter(db: Db, available: bool, q: QueryString.Params)
    requires Get(db, available, q).status == 200 && FilterParam(q).Some?
    ensures forall i :: 0 <= i < |Get(db, available, q).prices| ==>
      Contains(Get(db, available, q).prices[i].tld, FilterParam(q).value)
  {
    var (c, desc) := SortParams(q);
    RespondMatchesFilter(db, PageParam(q).value, LimitParam(q).value, LimitIsNegativeZero(q),
                         Offset(PageParam(q).value, LimitParam(q).value), FilterParam(q), c, desc);
  }

  lemma RespondMatchesFilter(db: Db, page: int, limit: nat, negativeZero: bool, offset: nat, filter: Option<string>,
                             c: Column, desc: bool)
    requires filter.Some? && filter.value != ""
    ensures var r := Respond(db, page, limit, negativeZero, offset, filter, c, desc);
      forall i :: 0 <= i < |r.prices| ==> Contains(r.prices[i].tld, filter.value)
  {
    var r := Respond(db, page, limit, negativeZero, offset, filter, c, desc);
    var listing := Listing(db, filter, c, desc);
    forall i | 0 <= i < |r.prices|
      ensures Contains(r.prices[i].tld, filter.value)
    {
      ListedNameMatches(db, filter, c, desc, offset + i);
      NonEmptyContainer(listing[offset + i].tldName, filter.value);
    }
  }

  lemma ListedNameMatches(db: Db, filter: Option<string>, c: Column, desc: bool, k: nat)
    requires k < |Listing(db, filter, c, desc)|
    ensures NameMatches(filter, Listing(db, filter, c, desc)[k].tldName)
  {
    ListingSpec(db, filter, c, desc);
    assert ListedRow(db, filter, Listing(db, filter, c, desc)[k]);
  }

  lemma NonEmptyContainer(hay: string, needle: string)
    requires Contains(hay, needle) && needle != ""
    ensures hay != ""
  {
  }

  /** The defaults: without `sortBy` and `sortOrder` the listing is ordered by
      extension name, ascending. */
  lemma DefaultOrder(q: QueryString.Params)
    requires "sortBy" !in q && "sortOrder" !in q
    ensures SortParams(q) == (ByTld, false)
  {
  }
}
