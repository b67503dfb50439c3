/** `GET /api/prices`: without both `domain` and `extension`, the 20 newest
    registrars; otherwise the extension (normalised to start with a dot) is
    looked up and every stored price row for it is returned, formatted, with
    a logo address derived from the registrar name. */
module PricesRoute {
  import opened Wrappers
  import opened Text
  import opened Seqs
  import opened Ordering
  import opened Store
  import QueryString

  const LatestCount := 20

  /** The outcome a response reports in its `message`; `PricesFound` stands
      for the successful lookup, whose answer carries no message. */
  datatype Message = LatestRegistrars | RegistrarsError | TldNotFound | NoPricingData | PricesFound | PricingError

  /** One registrar's prices for the extension. */
  datatype FormattedPrice = FormattedPrice(
    registrar: string, registrationPrice: int, renewalPrice: int, transferPrice: int,
    currency: string, logo: string)

  datatype Response =
    | Registrars(status: int, registrars: seq<Reg>, totalResults: int, message: Message)
    | Lookup(status: int, domain: string, tld: string, searchDomain: string, searchExtension: string,
             prices: seq<FormattedPrice>, totalResults: int, message: Message)

  function CreatedAtKey(): Reg -> Key {
    (r: Reg) => Num(r.createdAt)
  }

  /** `reg.findMany({ orderBy: { created_at: 'desc' }, take: 20 })`. */
  function NewestRegistrars(regs: seq<Reg>): (r: seq<Reg>)
    ensures |r| <= LatestCount && (|regs| >= LatestCount ==> |r| == LatestCount) && (|regs| < LatestCount ==> |r| == |regs|)
    ensures multiset(r) <= multiset(regs)
    ensures forall i, j :: 0 <= i < j < |r| ==> r[i].createdAt >= r[j].createdAt
    ensures forall x, i :: x in multiset(regs) - multiset(r) && 0 <= i < |r| ==> x.createdAt <= r[i].createdAt
  {
    var r := TopN(CreatedAtKey(), true, regs, LatestCount);
    assert forall i, j :: 0 <= i < j < |r| ==> InOrder(CreatedAtKey(), true, r[i], r[j]);
    r
  }

  /** The logo slug: the lower-cased registrar name without its first space. */
  function Slug(name: string): (r: string)
    ensures ' ' !in name ==> r == ToLower(name)
    ensures ' ' in name ==> |r| == |name| - 1
  {
    assert ' ' in name ==> ' ' in ToLower(name) by {
      if ' ' in name {
        var i :| 0 <= i < |name| && name[i] == ' ';
        assert ToLower(name)[i] == ' ';
      }
    }
    assert ' ' !in name ==> ' ' !in ToLower(name) by {
      if ' ' in ToLower(name) {
        var i :| 0 <= i < |name| && ToLower(name)[i] == ' ';
        assert name[i] == ' ';
      }
    }
    RemoveFirstSpace(ToLower(name))
  }

  function LogoUrl(name: string): string {
    "https://logo.clearbit.com/" + Slug(name) + ".com"
  }

  function Format(p: PriceRow, reg: Reg): (r: FormattedPrice)
    ensures r.currency == "USD"
    ensures r.registrar == reg.name && r.registrationPrice == p.regPrice
    ensures r.renewalPrice == p.renewPrice && r.transferPrice == p.transferPrice
  {
    FormattedPrice(reg.name, p.regPrice, p.renewPrice, p.transferPrice, "USD", LogoUrl(reg.name))
  }

  function OfTld(id: int): PriceRow -> bool {
    (p: PriceRow) => p.tldId == id
  }

  /** `price.findMany({ where: { tld_id } })`, in scan order. */
  function PricesOf(db: Db, id: int): (r: seq<PriceRow>)
    ensures forall i :: 0 <= i < |r| ==> r[i].tldId == id
  {
    Filter(OfTld(id), db.prices)
  }

  /** Formatting reads `price.reg.name`; a row whose registrar is missing
      makes it throw, which the handler's `catch` turns into a failure. */
  predicate AllRegistrarsPresent(db: Db, rows: seq<PriceRow>) {
    forall i :: 0 <= i < |rows| ==> FindReg(db.regs, rows[i].regId).Some?
  }

  function FormatAll(db: Db, rows: seq<PriceRow>): (r: seq<FormattedPrice>)
    requires AllRegistrarsPresent(db, rows)
    ensures |r| == |rows|
    ensures forall i :: 0 <= i < |r| ==> r[i] == Format(rows[i], FindReg(db.regs, rows[i].regId).value)
  {
    seq(|rows|, i requires 0 <= i < |rows| => Format(rows[i], FindReg(db.regs, rows[i].regId).value))
  }

  /** The handler, given the tables and whether the database answers. */
  function Get(db: Db, available: bool, q: QueryString.Params): (r: Response)
    ensures r.Registrars? <==> QueryString.GetOr(q, "domain", "") == "" || QueryString.GetOr(q, "extension", "") == ""
    ensures r.Registrars? && available ==> r.status == 200 && r.registrars == NewestRegistrars(db.regs)
    ensures r.Registrars? && !available ==> r.status == 500 && r.registrars == []
    ensures r.totalResults == if r.Registrars? then |r.registrars| else |r.prices|
    ensures r.Lookup? ==>
      (r.tld == QueryString.GetOr(q, "extension", "") && r.domain == QueryString.GetOr(q, "domain", "") + r.tld)
    ensures r.Lookup? && (r.message == TldNotFound || r.message == NoPricingData) ==> r.status == 200 && r.prices == []
    ensures r.Lookup? && r.message == TldNotFound <==>
      r.Lookup? && available && FindTldByName(db.tlds, NormalizeExtension(QueryString.GetOr(q, "extension", ""))).None?
    ensures r.status == 500 ==> r.totalResults == 0
    ensures !available ==> r.status == 500
    ensures r.Lookup? && r.message == NoPricingData <==>
      r.Lookup? && available && FindTldByName(db.tlds, NormalizeExtension(QueryString.GetOr(q, "extension", ""))).Some?
      && PricesOf(db, FindTldByName(db.tlds, NormalizeExtension(QueryString.GetOr(q, "extension", ""))).value.id) == []
    ensures var found := FindTldByName(db.tlds, NormalizeExtension(QueryString.GetOr(q, "extension", "")));
      r.Lookup? && available && found.Some? && PricesOf(db, found.value.id) != [] ==>
        (r.message == PricesFound <==> AllRegistrarsPresent(db, PricesOf(db, found.value.id)))
        && (r.message == PricesFound ==> r.status == 200)
        && (r.message != PricesFound ==> r.status == 500 && r.message == PricingError)
  {
    var domain := QueryString.GetOr(q, "domain", "");
    var extension := QueryString.GetOr(q, "extension", "");
    if domain == "" || extension == "" then
      if available then
        var regs := NewestRegistrars(db.regs);
        Registrars(200, regs, |regs|, LatestRegistrars)
      else Registrars(500, [], 0, RegistrarsError)
    else
      var fail := Lookup(500, domain + extension, extension, domain, extension, [], 0, PricingError);
      if !available then fail
      else
        match FindTldByName(db.tlds, NormalizeExtension(extension))
        case None => Lookup(200, domain + extension, extension, domain, extension, [], 0, TldNotFound)
        case Some(tld) =>
          var rows := PricesOf(db, tld.id);
          if |rows| == 0 then Lookup(200, domain + extension, extension, domain, extension, [], 0, NoPricingData)
          else if !AllRegistrarsPresent(db, rows) then fail
          else
            var prices := FormatAll(db, rows);
            Lookup(200, domain + extension, extension, domain, extension, prices, |prices|, PricesFound)
  }

  /** A found extension's response lists exactly its stored rows, in scan
      order and without de-duplication: row `i` of the answer is the `i`-th
      stored row with that extension's id. */
  lemma FoundPricesAreTheTldsRows(db: Db, available: bool, q: QueryString.Params, tld: Tld)
    requires Get(db, available, q).Lookup? && Get(db, available, q).message == PricesFound
    requires FindTldByName(db.tlds, NormalizeExtension(QueryString.GetOr(q, "extension", ""))) == Some(tld)
    ensures |Get(db, available, q).prices| == |Filter(OfTld(tld.id), db.prices)|
    ensures forall i :: 0 <= i < |Get(db, available, q).prices| ==>
      var p := Filter(OfTld(tld.id), db.prices)[i];
      Get(db, available, q).prices[i] == Format(p, FindReg(db.regs, p.regId).value)
    ensures forall p :: multiset(Filter(OfTld(tld.id), db.prices))[p] == if p.tldId == tld.id then multiset(db.prices)[p] else 0
  {
    forall p {
      FilterCounts(OfTld(tld.id), db.prices, p);
    }
  }

  /** Every formatted entry is priced in US dollars and carries the logo
      address built from its registrar's slug. */
  lemma EntriesAreUsd(db: Db, available: bool, q: QueryString.Params)
    requires Get(db, available, q).Lookup?
    ensures forall i :: 0 <= i < |Get(db, available, q).prices| ==>
      Get(db, available, q).prices[i].currency == "USD"
      && Get(db, available, q).prices[i].logo == LogoUrl(Get(db, available, q).prices[i].registrar)
  {
  }

  lemma NotInPrefix(s: string, c: char, n: nat)
    requires n <= |s| && c !in s[..n]
    ensures forall k :: 0 <= k < n ==> s[k] != c
  {
    assert forall k :: 0 <= k < n ==> s[..n][k] == s[k];
  }

  /** The slug drops exactly the first space of the name and keeps every
      later one: it is the lower-cased text before that space followed by the
      lower-cased text after it. */
  lemma SlugRemovesOnlyFirstSpace(name: string, i: nat)
    requires i < |name| && name[i] == ' ' && ' ' !in name[..i]
    ensures Slug(name) == ToLower(name[..i]) + ToLower(name[i + 1..])
  {
    var lower := ToLower(name);
    assert lower[i] == ' ';
    assert ' ' !in lower[..i] by {
      forall k | 0 <= k < i
        ensures lower[k] != ' '
      {
        assert name[..i][k] == name[k];
      }
    }
    var j := IndexOf(lower, ' ').value;
    NotInPrefix(lower, ' ', i);
    NotInPrefix(lower, ' ', j);
    assert j == i;
    assert lower[..i] == ToLower(name[..i]);
    assert lower[i + 1..] == ToLower(name[i + 1..]);
  }
}
