/** `GET /api/tlds`: without `name`, the 20 newest extensions; with it, the
    extension (normalised to start with a dot) and all its stored price rows,
    newest first, each joined with its registrar's name through a map built
    from the distinct registrar ids of those rows. */
module TldsRoute {
  import opened Wrappers
  import opened Text
  import opened Seqs
  import opened Ordering
  import opened Store
  import QueryString

  const LatestCount := 20

  datatype Message = LatestTlds | TldFound | TldNotFound | FetchError

  /** An extension as the response shows it. */
  datatype TldView = TldView(id: int, name: string, createdAt: int, updatedAt: int)

  /** A price row as the response shows it, with its registrar's name. */
  datatype TldPrice = TldPrice(
    id: int, regId: int, tldId: int,
    registrationPrice: int, renewalPrice: int, transferPrice: int,
    currency: string, registrar: string, createdAt: int)

  datatype Response =
    | TldList(status: int, tlds: seq<TldView>, totalResults: int, message: Message)
    | TldDetail(status: int, tld: Option<TldView>, prices: seq<TldPrice>, totalResults: int, message: Message)

  function View(t: Tld): TldView {
    TldView(t.id, t.name, t.createdAt, t.updatedAt)
  }

  function TldCreatedAt(): Tld -> Key {
    (t: Tld) => Num(t.createdAt)
  }

  function PriceCreatedAt(): PriceRow -> Key {
    (p: PriceRow) => Num(p.createdAt)
  }

  /** `tld.findMany({ orderBy: { created_at: 'desc' }, take: 20 })`. */
  function NewestTlds(tlds: seq<Tld>): (r: seq<Tld>)
    ensures |r| <= LatestCount && (|tlds| >= LatestCount ==> |r| == LatestCount) && (|tlds| < LatestCount ==> |r| == |tlds|)
    ensures multiset(r) <= multiset(tlds)
    ensures forall i, j :: 0 <= i < j < |r| ==> r[i].createdAt >= r[j].createdAt
    ensures forall x, i :: x in multiset(tlds) - multiset(r) && 0 <= i < |r| ==> x.createdAt <= r[i].createdAt
  {
    var r := TopN(TldCreatedAt(), true, tlds, LatestCount);
    assert forall i, j :: 0 <= i < j < |r| ==> InOrder(TldCreatedAt(), true, r[i], r[j]);
    r
  }

  function OfTld(id: int): PriceRow -> bool {
    (p: PriceRow) => p.tldId == id
  }

  /** `price.findMany({ where: { tld_id }, orderBy: { created_at: 'desc' } })`:
      every stored row of the extension, as often as it is stored, newest
      first. */
  function PricesNewestFirst(db: Db, id: int): (r: seq<PriceRow>)
    ensures multiset(r) == multiset(Filter(OfTld(id), db.prices))
    ensures |r| == |Filter(OfTld(id), db.prices)|
    ensures forall i :: 0 <= i < |r| ==> r[i].tldId == id
    ensures forall i, j :: 0 <= i < j < |r| ==> r[i].createdAt >= r[j].createdAt
  {
    var kept := Filter(OfTld(id), db.prices);
    var r := Sort(PriceCreatedAt(), true, kept);
    assert forall i, j :: 0 <= i < j < |r| ==> InOrder(PriceCreatedAt(), true, r[i], r[j]);
    RowsOfTld(kept, r, id);
    r
  }

  lemma RowsOfTld(kept: seq<PriceRow>, r: seq<PriceRow>, id: int)
    requires forall i :: 0 <= i < |kept| ==> kept[i].tldId == id
    requires multiset(r) == multiset(kept)
    ensures forall i :: 0 <= i < |r| ==> r[i].tldId == id
  {
    forall i | 0 <= i < |r|
      ensures r[i].tldId == id
    {
      assert r[i] in multiset(kept);
      var j :| 0 <= j < |kept| && kept[j] == r[i];
    }
  }

  /** `[...new Set(prices.map(p => p.reg_id))]`. */
  function RegistrarIds(rows: seq<PriceRow>): (ids: seq<int>)
    ensures NoDuplicates(ids)
    ensures forall i :: 0 <= i < |rows| ==> rows[i].regId in ids
    ensures forall k :: k in ids ==> exists i :: 0 <= i < |rows| && rows[i].regId == k
  {
    var all := seq(|rows|, i requires 0 <= i < |rows| => rows[i].regId);
    var ids := Distinct(all);
    assert forall i :: 0 <= i < |rows| ==> all[i] == rows[i].regId;
    assert forall k :: k in ids ==> k in all;
    ids
  }

  function WithIdIn(ids: seq<int>): Reg -> bool {
    (r: Reg) => r.id in ids
  }

  /** `new Map(registrars.map(r => [r.id, r.name]))`: later entries overwrite
      earlier ones with the same id. */
  function NameMap(regs: seq<Reg>): (m: map<int, string>)
    ensures forall k :: k in m <==> exists i :: 0 <= i < |regs| && regs[i].id == k
    decreases |regs|
  {
    if |regs| == 0 then map[]
    else
      var last := regs[|regs| - 1];
      var front := regs[..|regs| - 1];
      var m := NameMap(front);
      assert forall i :: 0 <= i < |front| ==> front[i] == regs[i];
      m[last.id := last.name]
  }

  /** With unique ids, the map sends every registrar's id to its name. */
  lemma {:induction false} NameMapLookup(regs: seq<Reg>, r: Reg)
    requires UniqueRegIds(regs) && r in regs
    ensures r.id in NameMap(regs) && NameMap(regs)[r.id] == r.name
    decreases |regs|
  {
    var front := regs[..|regs| - 1];
    var last := regs[|regs| - 1];
    if r != last {
      assert r in front by {
        var i :| 0 <= i < |regs| && regs[i] == r;
        assert i != |regs| - 1;
        assert front[i] == r;
      }
      assert UniqueRegIds(front);
      NameMapLookup(front, r);
      assert r.id != last.id by {
        var i :| 0 <= i < |front| && front[i] == r;
        assert regs[i] == r;
      }
    }
  }

  /** The registrar shown for a row: the mapped name, or `'Unknown'` when the
      id is not in the map or maps to an empty name. */
  function RegistrarName(names: map<int, string>, id: int): (r: string)
    ensures id in names && names[id] != "" ==> r == names[id]
    ensures id !in names ==> r == "Unknown"
  {
    if id in names then OrElse(names[id], "Unknown") else "Unknown"
  }

  function Format(p: PriceRow, names: map<int, string>): (r: TldPrice)
    ensures r.currency == "USD" && r.id == p.id && r.regId == p.regId && r.tldId == p.tldId
    ensures r.registrationPrice == p.regPrice && r.renewalPrice == p.renewPrice && r.transferPrice == p.transferPrice
    ensures r.registrar == RegistrarName(names, p.regId) && r.createdAt == p.createdAt
  {
    TldPrice(p.id, p.regId, p.tldId, p.regPrice, p.renewPrice, p.transferPrice, "USD",
             RegistrarName(names, p.regId), p.createdAt)
  }

  /** The registrars whose id occurs among `rows`
      (`reg.findMany({ where: { id: { in: registrarIds } } })`). */
  function RegistrarsOf(db: Db, rows: seq<PriceRow>): (r: seq<Reg>)
    ensures forall i :: 0 <= i < |r| ==> r[i] in db.regs && r[i].id in RegistrarIds(rows)
  {
    Filter(WithIdIn(RegistrarIds(rows)), db.regs)
  }

  /** The detail lists every stored row of the extension once per stored
      copy, newest first. */
  function Detail(db: Db, tld: Tld): (r: Response)
    ensures r.TldDetail? && r.status == 200 && r.tld == Some(View(tld)) && r.message == TldFound
    ensures r.totalResults == |r.prices| == |Filter(OfTld(tld.id), db.prices)|
    ensures forall i :: 0 <= i < |r.prices| ==> r.prices[i].tldId == tld.id && r.prices[i].currency == "USD"
    ensures forall i, j :: 0 <= i < j < |r.prices| ==> r.prices[i].createdAt >= r.prices[j].createdAt
  {
    var rows := PricesNewestFirst(db, tld.id);
    var names := NameMap(RegistrarsOf(db, rows));
    var prices := FormatAll(rows, names);
    TldDetail(200, Some(View(tld)), prices, |prices|, TldFound)
  }

  function FormatAll(rows: seq<PriceRow>, names: map<int, string>): (r: seq<TldPrice>)
    ensures |r| == |rows|
    ensures forall i :: 0 <= i < |r| ==> r[i] == Format(rows[i], names)
  {
    seq(|rows|, i requires 0 <= i < |rows| => Format(rows[i], names))
  }

  /** The list branch: the newest extensions, shown as stored. */
  function Latest(db: Db): (r: Response)
    ensures r.TldList? && r.status == 200 && r.message == LatestTlds
    ensures |r.tlds| == r.totalResults == |NewestTlds(db.tlds)|
    ensures forall i :: 0 <= i < |r.tlds| ==> r.tlds[i] == View(NewestTlds(db.tlds)[i])
  {
    var tlds := NewestTlds(db.tlds);
    var views := seq(|tlds|, i requires 0 <= i < |tlds| => View(tlds[i]));
    TldList(200, views, |views|, LatestTlds)
  }

  /** The handler, given the tables and whether the database answers. */
  function Get(db: Db, available: bool, q: QueryString.Params): (r: Response)
    ensures !available ==> r == TldList(500, [], 0, FetchError)
    ensures available && QueryString.GetOr(q, "name", "") == "" ==> r == Latest(db)
    ensures available && QueryString.GetOr(q, "name", "") != "" ==>
      match FindTldByName(db.tlds, NormalizeExtension(QueryString.GetOr(q, "name", "")))
      case None => r == TldDetail(200, None, [], 0, TldNotFound)
      case Some(t) => r == Detail(db, t)
    ensures r.totalResults == if r.TldList? then |r.tlds| else |r.prices|
  {
    var name := QueryString.GetOr(q, "name", "");
    if !available then TldList(500, [], 0, FetchError)
    else if name == "" then Latest(db)
    else
      match FindTldByName(db.tlds, NormalizeExtension(name))
      case None => TldDetail(200, None, [], 0, TldNotFound)
      case Some(t) => Detail(db, t)
  }

  /** The detail's entries are the extension's stored rows, each formatted
      on its own, once per stored copy: they are the formatted rows of some
      rearrangement of exactly those rows. */
  lemma DetailEntries(db: Db, tld: Tld)
    ensures exists rows :: (multiset(rows) == multiset(Filter(OfTld(tld.id), db.prices))
      && Detail(db, tld).prices == FormatAll(rows, NameMap(RegistrarsOf(db, rows))))
  {
    var rows := PricesNewestFirst(db, tld.id);
    assert Detail(db, tld).prices == FormatAll(rows, NameMap(RegistrarsOf(db, rows)));
  }

  /** Each row of the detail names its registrar by id, falling back to
      `'Unknown'` exactly when no registrar has that id or its name is
      empty. */
  lemma DetailRegistrars(db: Db, tld: Tld, i: nat)
    requires UniqueRegIds(db.regs)
    requires i < |Detail(db, tld).prices|
    ensures Detail(db, tld).prices[i].registrar ==
      match FindReg(db.regs, Detail(db, tld).prices[i].regId)
      case None => "Unknown"
      case Some(reg) => OrElse(reg.name, "Unknown")
  {
    var rows := PricesNewestFirst(db, tld.id);
    var regs := RegistrarsOf(db, rows);
    var names := NameMap(regs);
    var id := rows[i].regId;
    assert Detail(db, tld).prices == FormatAll(rows, names);
    match FindReg(db.regs, id)
    case None =>
      assert forall k :: 0 <= k < |regs| ==> regs[k].id != id;
    case Some(reg) =>
      assert reg in regs by {
        assert id in RegistrarIds(rows);
        FilterCounts(WithIdIn(RegistrarIds(rows)), db.regs, reg);
      }
      FilterUniqueRegIds(WithIdIn(RegistrarIds(rows)), db.regs);
      NameMapLookup(regs, reg);
  }

  lemma {:induction false} FilterUniqueRegIds(keep: Reg -> bool, regs: seq<Reg>)
    requires UniqueRegIds(regs)
    ensures UniqueRegIds(Filter(keep, regs))
    decreases |regs|
  {
    if |regs| > 0 {
      FilterUniqueRegIds(keep, regs[1..]);
      var rest := Filter(keep, regs[1..]);
      forall i | 0 <= i < |rest|
        ensures rest[i].id != regs[0].id
      {
        var n :| 0 <= n < |regs[1..]| && regs[1..][n] == rest[i];
        assert regs[n + 1] == rest[i];
      }
    }
  }
}
